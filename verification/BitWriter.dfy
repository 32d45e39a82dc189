/** The bit output layer shared by `jchuff.c` and `jcphuff.c`: `emit_byte`, `emit_bits` and
    `flush_bits` over a destination whose buffer may refuse to be emptied. */
module BitOutput {
  import opened BitStrings
  import opened EntropySegments

  /** How an output step ends: done, forced to suspend, or a fatal error (ERREXIT). */
  datatype Outcome = Ok | Suspended | Error

  const WORD := 0x1_0000_0000
  const LOW24 := 0x100_0000

  /** `a | b`. */
  function BitOr(a: nat, b: nat): nat
  {
    if a == 0 && b == 0 then 0
    else 2 * BitOr(a / 2, b / 2) + (if a % 2 == 1 || b % 2 == 1 then 1 else 0)
  }

  /** Merging into cleared low bits is addition. */
  lemma {:induction false} OrDisjoint(a: nat, b: nat, k: nat)
    requires b < Pow2(k)
    ensures BitOr(Shl(a, k), b) == Shl(a, k) + b
    decreases k
  {
    if k == 0 {
      OrZero(a);
    } else {
      OrDisjoint(a, b / 2, k - 1);
    }
  }

  lemma {:induction false} OrZero(a: nat)
    ensures BitOr(a, 0) == a
  {
    if a != 0 {
      OrZero(a / 2);
    }
  }

  lemma {:induction false} OrSymmetric(a: nat, b: nat)
    ensures BitOr(a, b) == BitOr(b, a)
    decreases a + b
  {
    if a != 0 || b != 0 {
      OrSymmetric(a / 2, b / 2);
    }
  }

  lemma ShlConstants(x: nat)
    ensures Shl(x, 8) == 256 * x && Shl(x, 16) == 65536 * x && Shl(x, 24) == LOW24 * x
  {
    Shl8(x);
    ShlAdd(x, 8, 8);
    Shl8(256 * x);
    ShlAdd(x, 16, 8);
    Shl8(65536 * x);
  }

  lemma Shl8(x: nat)
    ensures Shl(x, 8) == 256 * x
  {
    assert Shl(x, 1) == 2 * x;
    assert Shl(x, 2) == 4 * x;
    assert Shl(x, 4) == 4 * Shl(x, 2);
    assert Shl(x, 6) == 4 * Shl(x, 4);
  }

  /** A 32-bit accumulator holds the bits `p` left-justified in its low 24 bits; what lies above
      them is left over from bytes already written. */
  ghost predicate Holds(buffer: nat, p: Bits) {
    |p| <= 24 && buffer % LOW24 == Shl(Val(p), 24 - |p|)
  }

  /** New bits below the held ones merge without interference. */
  lemma OrAligned(buffer: nat, p: Bits, s: nat)
    requires Holds(buffer, p) && s < Pow2(24 - |p|)
    ensures BitOr(s, buffer) == buffer + s
  {
    hide BitOr, Val, Shl, Pow2;
    var k := 24 - |p|;
    var g := buffer / LOW24;
    ShlConstants(g);
    ShlAdd(g, |p|, k);
    ShlSum(Shl(g, |p|), Val(p), k);
    OrSymmetric(s, buffer);
    OrDisjoint(Shl(g, |p|) + Val(p), s, k);
  }

  lemma AlignedConcat(p: Bits, t: Bits, k: nat)
    requires |t| <= k
    ensures Shl(Val(p + t), k - |t|) == Shl(Val(p), k) + Shl(Val(t), k - |t|)
    ensures Shl(Val(t), k - |t|) < Pow2(k)
  {
    ValConcat(p, t);
    ShlAdd(Val(p), |t|, k - |t|);
    ShlSum(Shl(Val(p), |t|), Val(t), k - |t|);
    ValBound(t);
    ShiftedBound(Val(t), |t|, k);
  }

  lemma HeldBound(p: Bits)
    requires |p| <= 24
    ensures Shl(Val(p), 24 - |p|) < LOW24
  {
    hide Val;
    ValBound(p);
    ShiftedBound(Val(p), |p|, 24);
    ShlPow2(0, 24);
    ShlConstants(1);
  }

  /** Merging aligned new bits into the accumulator appends them. */
  lemma HoldsAppend(buffer: nat, p: Bits, t: Bits)
    requires Holds(buffer, p) && |p| + |t| <= 24
    ensures Holds(BitOr(Shl(Val(t), 24 - |p| - |t|), buffer), p + t)
  {
    hide Val, Shl, Pow2, BitOr;
    AlignedConcat(p, t, 24 - |p|);
    OrAligned(buffer, p, Shl(Val(t), 24 - |p| - |t|));
    HeldBound(p + t);
  }

  lemma ShiftedBound(v: nat, n: nat, m: nat)
    requires v < Pow2(n) && n <= m
    ensures Shl(v, m - n) < Pow2(m)
  {
    ShlMono(v + 1, Pow2(n), m - n);
    ShlSum(v, 1, m - n);
    ShlPow2(n, m - n);
    ShlMono(0, 1, m - n);
    ShlPow2(0, m - n);
  }

  /** Bits 16 to 23 are the next byte, and shifting left by 8 drops it. */
  lemma HoldsByte(buffer: nat, p: Bits)
    requires Holds(buffer, p) && |p| >= 8
    ensures buffer / 65536 % 256 == Val(p[..8])
    ensures Holds(buffer * 256 % WORD, p[8..])
  {
    hide Val, Shl, Pow2;
    var hi, lo := p[..8], p[8..];
    assert p == hi + lo;
    ValConcat(hi, lo);
    ValBound(hi);
    ValBound(lo);
    var k := 24 - |p|;
    ShlAdd(Val(hi), |lo|, k);
    ShlSum(Shl(Val(hi), |lo|), Val(lo), k);
    ShlConstants(Val(hi));
    ShiftedBound(Val(lo), |lo|, 16);
    SmallPowers();
    var l := Shl(Val(lo), k);
    assert buffer % LOW24 == 65536 * Val(hi) + l;
    ByteArithmetic(buffer, Val(hi), l);
    ShlAdd(Val(lo), k, 8);
    ShlConstants(l);
  }

  lemma SmallPowers()
    ensures Pow2(8) == 256 && Pow2(16) == 65536
  {
    ShlPow2(0, 8);
    ShlPow2(0, 16);
    ShlConstants(1);
  }

  lemma ByteArithmetic(buffer: nat, h: nat, l: nat)
    requires h < 256 && l < 65536 && buffer % LOW24 == 65536 * h + l
    ensures buffer / 65536 % 256 == h
    ensures buffer * 256 % WORD % LOW24 == 256 * l
  {
    var g := buffer / LOW24;
    assert buffer == LOW24 * g + 65536 * h + l;
    assert buffer / 65536 == 256 * g + h;
    assert buffer * 256 == LOW24 * (256 * g + h) + 256 * l;
  }

  /** The working state while bits are written. */
  class BitWriter {
    var putBuffer: nat
    var putBits: nat
    var out: seq<Byte>
    var free: nat
    const bufSize: nat
    const suspending: bool
    ghost var pending: Bits

    ghost predicate Valid()
      reads this
    {
      && |pending| == putBits < 8
      && Holds(putBuffer, pending)
      && free > 0 && bufSize > 0
    }

    constructor (putBuffer: nat, putBits: nat, free: nat, bufSize: nat, suspending: bool, ghost pending: Bits)
      requires |pending| == putBits < 8 && Holds(putBuffer, pending) && free > 0 && bufSize > 0
      ensures Valid() && fresh(this)
      ensures this.putBuffer == putBuffer && this.putBits == putBits && this.free == free
      ensures this.bufSize == bufSize && this.suspending == suspending
      ensures this.pending == pending && out == []
    {
      this.putBuffer, this.putBits, this.free := putBuffer, putBits, free;
      this.bufSize, this.suspending := bufSize, suspending;
      this.pending := pending;
      out := [];
    }

    /** Whether `n` more bytes can be written without the destination refusing. */
    predicate Room(n: nat)
      reads this
    {
      suspending ==> n < free
    }

    /** The buffer space left after `n` accepted bytes: emptied on demand, unless suspending. */
    ghost predicate SpaceAfter(before: nat, n: nat)
      reads this
    {
      free > 0 && (suspending ==> free == before - n)
    }

    method EmitByte(val: Byte) returns (ok: bool)
      requires free > 0 && bufSize > 0
      modifies this`out, this`free
      ensures ok == old(Room(1))
      ensures ok ==> out == old(out) + [val] && SpaceAfter(old(free), 1)
    {
      out := out + [val];
      free := free - 1;
      if free == 0 {
        if suspending {
          return false;
        }
        free := bufSize;
      }
      return true;
    }

    /** Appends the low `size` bits of `code` to the stream. Succeeds exactly when the destination
        has room for the bytes completed; size 0 marks a symbol without code. */
    method EmitBits(code: int, size: nat) returns (r: Outcome)
      requires Valid() && size <= 16
      modifies this
      ensures r == (if size == 0 then Error
                    else if old(Room(|Stuff(Bytes(pending + BitsOf(code, size)))|)) then Ok else Suspended)
      ensures r.Ok? ==>
        var all := old(pending) + BitsOf(code, size);
        && Valid()
        && out == old(out) + Stuff(Bytes(all))
        && pending == Rem(all)
        && SpaceAfter(old(free), |Stuff(Bytes(all))|)
    {
      hide Stuff, Bytes, Rem, Val, Shl, BitOr, Holds;
      if size == 0 {
        return Error;
      }
      ghost var all := pending + BitsOf(code, size);
      var buffer: nat := Val(BitsOf(code, size));
      var bits := putBits + size;
      buffer := Shl(buffer, 24 - bits);
      buffer := BitOr(buffer, putBuffer);
      HoldsAppend(putBuffer, pending, BitsOf(code, size));
      ghost var rest := all;
      while bits >= 8
        invariant |rest| == bits <= 24 && Holds(buffer, rest)
        invariant Rem(rest) == Rem(all)
        invariant out + Stuff(Bytes(rest)) == old(out) + Stuff(Bytes(all))
        invariant |old(out)| <= |out| && SpaceAfter(old(free), |out| - |old(out)|)
        invariant bufSize > 0
      {
        HoldsByte(buffer, rest);
        var c: Byte := buffer / 65536 % 256;
        ghost var later := Stuff(Bytes(rest[8..]));
        ghost var now: seq<Byte> := if c == 0xFF then [0xFF, 0] else [c];
        ghost var before := out;
        HeadByte(rest);
        Regroup(before, now, later);
        var ok := EmitByte(c);
        if !ok {
          return Suspended;
        }
        if c == 0xFF {
          ok := EmitByte(0);
          if !ok {
            return Suspended;
          }
        }
        assert out == before + now;
        buffer := buffer * 256 % WORD;
        bits := bits - 8;
        rest := rest[8..];
      }
      Incomplete(rest);
      putBuffer, putBits, pending := buffer, bits, rest;
      return Ok;
    }

    /** Fills a partial byte with ones and empties the accumulator. */
    method FlushBits() returns (r: Outcome)
      requires Valid()
      modifies this
      ensures r == (if old(Room(|Stuff(Bytes(pending + ONES))|)) then Ok else Suspended)
      ensures r.Ok? ==>
        && Valid()
        && out == old(out) + Stuff(Bytes(old(pending) + ONES))
        && pending == []
        && SpaceAfter(old(free), |Stuff(Bytes(old(pending) + ONES))|)
    {
      hide Stuff, Bytes, Holds;
      SevenOnes();
      r := EmitBits(0x7F, 7);
      if r != Ok {
        return;
      }
      putBuffer, putBits, pending := 0, 0, [];
      NothingHeld();
    }
  }

  lemma Incomplete(s: Bits)
    requires |s| < 8
    ensures Stuff(Bytes(s)) == [] && Rem(s) == s
  {
  }

  lemma SevenOnes()
    ensures BitsOf(0x7F, 7) == ONES
  {
  }

  lemma NothingHeld()
    ensures Holds(0, [])
  {
    ShlConstants(0);
  }

  /** The first byte of at least eight bits, and what it becomes when stuffed. */
  lemma HeadByte(s: Bits)
    requires |s| >= 8
    ensures Val(s[..8]) < 256 && Rem(s[8..]) == Rem(s)
    ensures Stuff(Bytes(s)) == (if Val(s[..8]) == 0xFF then [0xFF, 0] else [Val(s[..8])]) + Stuff(Bytes(s[8..]))
  {
    hide Val;
    StuffHead(Bytes(s)[0], Bytes(s[8..]));
  }

  lemma Regroup(a: seq<Byte>, b: seq<Byte>, c: seq<Byte>)
    ensures (a + b) + c == a + (b + c)
  {
  }

  lemma StuffHead(c: Byte, rest: seq<Byte>)
    ensures Stuff([c] + rest) == (if c == 0xFF then [0xFF, 0] else [c]) + Stuff(rest)
  {
    assert ([c] + rest)[1..] == rest;
  }
}
