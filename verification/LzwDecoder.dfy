/** The LZW decoder object of bin/pdf-parser.py, proved against the functions of LzwCodec. */
module LzwDecoder {
  import opened Bits
  import opened Wrappers
  import opened LzwCodec

  class Decoder {
    const data: seq<byte>  // what fp holds
    var pos: nat           // how far fp has been read
    var buff: byte
    var bpos: nat
    var nbits: nat
    var table: seq<Phrase>
    var prevbuf: Phrase

    constructor (data: seq<byte>)
      ensures Valid() && Remaining() == ByteBits(data) && CurrentState() == START
    {
      this.data := data;
      pos, buff, bpos, nbits := 0, 0, 8, 9;
      table, prevbuf := [], [];
      new;
      assert data[0..] == data;
    }

    ghost predicate ValidPosition()
      reads this
    {
      pos <= |data| && bpos <= 8
    }

    ghost predicate Valid()
      reads this
    {
      ValidPosition() && ValidState(CurrentState())
    }

    function CurrentState(): State
      reads this
    {
      State(table, prevbuf, nbits)
    }

    /** The bits not yet handed out: the low end of the buffer, then the unread bytes. */
    ghost function Remaining(): seq<bit>
      requires ValidPosition()
      reads this
    {
      NatBits(buff, 8 - bpos) + ByteBits(data[pos..])
    }

    /** The next n bits as a number, most significant first; None stands for EOFError. */
    method ReadBits(n: nat) returns (r: Option<nat>)
      requires ValidPosition()
      modifies `pos, `buff, `bpos
      ensures ValidPosition()
      ensures r.Some? <==> n <= |old(Remaining())|
      ensures r.Some? ==> r.value == BitsVal(old(Remaining())[..n]) && Remaining() == old(Remaining())[n..]
    {
      ghost var all := Remaining();
      ghost var got: seq<bit> := [];
      var bits: nat, v: nat := n, 0;
      while true
        invariant ValidPosition()
        invariant |got| + bits == n
        invariant v == BitsVal(got)
        invariant all == got + Remaining()
        decreases |data| - pos, bits
      {
        var left := 8 - bpos;
        if bits <= left {
          v := LastBits(v, bits, got, all);
          return Some(v);
        }
        v, got := BufferBits(v, got, all);
        bits := bits - left;
        if pos == |data| {
          return None;
        }
        LoadByte();
      }
    }

    /** The last bits that are wanted are all in the buffer. */
    method LastBits(before: nat, bits: nat, ghost got: seq<bit>, ghost all: seq<bit>) returns (v: nat)
      requires ValidPosition() && bits <= 8 - bpos && before == BitsVal(got) && all == got + Remaining()
      modifies `bpos
      ensures ValidPosition() && |got| + bits <= |all|
      ensures v == BitsVal(all[..|got| + bits]) && Remaining() == all[|got| + bits..]
    {
      var left := 8 - bpos;
      ghost var head := TakeFromBuffer(all, got, buff, left, bits, ByteBits(data[pos..]));
      v := Join(before, bits, LowBits(ShiftRight(buff, left - bits), bits));
      bpos := bpos + bits;
      Concatenated(all, got + head, Remaining());
    }

    /** All bits of the buffer are wanted, and more. */
    method BufferBits(before: nat, ghost got: seq<bit>, ghost all: seq<bit>) returns (v: nat, ghost more: seq<bit>)
      requires ValidPosition() && before == BitsVal(got) && all == got + Remaining()
      ensures v == BitsVal(more) && |more| == |got| + 8 - bpos && all == more + ByteBits(data[pos..])
    {
      var left := 8 - bpos;
      ghost var head := TakeFromBuffer(all, got, buff, left, left, ByteBits(data[pos..]));
      v := Join(before, left, LowBits(buff, left));
      more := got + head;
    }

    /** The read that refills the buffer. */
    method LoadByte()
      requires ValidPosition() && pos < |data|
      modifies `pos, `buff, `bpos
      ensures ValidPosition() && pos == old(pos) + 1 && buff == data[old(pos)] && bpos == 0
      ensures Remaining() == ByteBits(data[old(pos)..])
    {
      NextByte(data, pos);
      buff := data[pos];
      pos := pos + 1;
      bpos := 0;
    }

    /** One code: the bytes put out and the state of Feed, or the exception that Feed stands for. */
    method FeedCode(code: nat) returns (r: Result<Phrase, Error>)
      requires Valid()
      modifies `table, `prevbuf, `nbits
      ensures r.Ok? <==> Feed(old(CurrentState()), code).Ok?
      ensures r.Ok? ==> Valid() && Feed(old(CurrentState()), code) == Ok((CurrentState(), r.value))
      ensures r.Err? ==> r.error == NoSuchEntry
    {
      var x := [];
      if code == CLEAR {
        table := InitialTable();
        prevbuf := [];
        nbits := 9;
      } else if code == END_OF_DATA {
      } else if prevbuf == [] {
        if code >= |table| {
          return Err(NoSuchEntry);
        }
        prevbuf := table[code];
        x := prevbuf;
      } else {
        if code < |table| {
          x := table[code];
          table := table + [prevbuf + [x[0]]];
        } else {
          table := table + [prevbuf + [prevbuf[0]]];
          if code >= |table| {
            return Err(NoSuchEntry);
          }
          x := table[code];
        }
        var l := |table|;
        if l == 511 {
          nbits := 10;
        } else if l == 1023 {
          nbits := 11;
        } else if l == 2047 {
          nbits := 12;
        }
        prevbuf := x;
      }
      return Ok(x);
    }

    /** Everything the generator yields, joined. */
    method RunAll() returns (r: Result<seq<byte>, Error>)
      requires Valid()
      modifies this
      ensures r == LzwCodec.Run(old(Remaining()), old(CurrentState()))
    {
      var out := [];
      PrependNothing(LzwCodec.Run(Remaining(), CurrentState()));
      while true
        invariant Valid()
        invariant LzwCodec.Run(old(Remaining()), old(CurrentState()))
               == Prepend(out, LzwCodec.Run(Remaining(), CurrentState()))
        decreases |Remaining()|
      {
        ghost var bits, st := Remaining(), CurrentState();
        var code := ReadBits(nbits);
        if code.None? {
          assert out + [] == out;
          return Ok(out);
        }
        RunStep(bits, st, code.value, out);
        var x := FeedCode(code.value);
        if x.Err? {
          return Err(x.error);
        }
        out := out + x.value;
      }
    }
  }

  /** One round of the run: what it puts out goes behind what there is already. */
  lemma {:induction false} RunStep(bits: seq<bit>, st: State, code: nat, out: seq<byte>)
    requires ValidState(st) && st.nbits <= |bits| && code == BitsVal(bits[..st.nbits])
    ensures Prepend(out, LzwCodec.Run(bits, st)) ==
            match Feed(st, code)
            case Err(e) => Err(e)
            case Ok((next, x)) => Prepend(out + x, LzwCodec.Run(bits[st.nbits..], next))
  {
    if Feed(st, code).Ok? {
      var (next, x) := Feed(st, code).value;
      PrependTwice(out, x, LzwCodec.Run(bits[st.nbits..], next));
    }
  }

  /** (v << n) | low, for a low below 2^n. */
  function Join(v: nat, n: nat, low: nat): nat {
    ShiftLeft(v, n) + low
  }

  /** Taking the top `bits` of the `left` bits in the buffer. */
  lemma TakeFromBuffer(
      all: seq<bit>, got: seq<bit>, buff: byte, left: nat, bits: nat, unread: seq<bit>)
    returns (head: seq<bit>)
    requires bits <= left && all == got + (NatBits(buff, left) + unread)
    ensures |got + head| == |got| + bits
    ensures all == got + head + (NatBits(buff, left - bits) + unread)
    ensures bits == left ==> all == got + head + unread
    ensures BitsVal(got + head) == Join(BitsVal(got), bits, LowBits(ShiftRight(buff, left - bits), bits))
  {
    head := NatBits(ShiftRight(buff, left - bits), bits);
    assert bits + (left - bits) == left;
    NatBitsSplit(buff, bits, left - bits);
    BitsValConcat(got, head);
    ShiftLeftMultiplies(BitsVal(got), bits);
    NatBitsVal(ShiftRight(buff, left - bits), bits);
    LowBitsMod(ShiftRight(buff, left - bits), bits);
  }

  lemma Concatenated(all: seq<bit>, a: seq<bit>, b: seq<bit>)
    requires all == a + b
    ensures all[..|a|] == a && all[|a|..] == b
  {
  }

  lemma NextByte(data: seq<byte>, pos: nat)
    requires pos < |data|
    ensures ByteBits(data[pos..]) == NatBits(data[pos], 8) + ByteBits(data[pos + 1..])
  {
    assert data[pos..][1..] == data[pos + 1..];
  }

  /** LZWDecode: the decoder run over a whole stream. */
  method LzwDecode(data: seq<byte>) returns (r: Result<seq<byte>, Error>)
    ensures r == LzwCodec.Run(ByteBits(data), START)
    ensures forall text, clear: nat -> bool ::
              TwelveBits(Encode(text, clear)) && data == PackBits(CodeBits(Encode(text, clear))) ==> r == Ok(text)
  {
    var decoder := new Decoder(data);
    r := decoder.RunAll();
    forall text, clear: nat -> bool
      | TwelveBits(Encode(text, clear)) && data == PackBits(CodeBits(Encode(text, clear)))
      ensures r == Ok(text)
    {
      DecodeEncode(text, clear);
    }
  }
}
