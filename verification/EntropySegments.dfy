/** Entropy-coded segments: bits packed into bytes, zero bytes stuffed after 0xFF, and restart
    markers between segments (sections B.1.1.5, E.1.4 and F.1.2.3 of ITU-T T.81). */
module EntropySegments {
  import opened Wrappers
  import opened BitStrings

  // ---------------------------------------------------------------- packing

  /** The complete bytes of a bit string. */
  function Bytes(s: Bits): seq<Byte>
  {
    if |s| < 8 then [] else ValBound(s[..8]); assert Pow2(8) == 256; [Val(s[..8])] + Bytes(s[8..])
  }

  /** The bits after the last complete byte. */
  function Rem(s: Bits): (r: Bits)
    ensures |r| < 8
  {
    if |s| < 8 then s else Rem(s[8..])
  }

  function Unpack(bs: seq<Byte>): Bits
  {
    if bs == [] then [] else BitsOf(bs[0], 8) + Unpack(bs[1..])
  }

  lemma {:induction false} PackAppend(s: Bits, t: Bits)
    ensures Bytes(s + t) == Bytes(s) + Bytes(Rem(s) + t)
    ensures Rem(s + t) == Rem(Rem(s) + t)
  {
    if |s| >= 8 {
      assert (s + t)[..8] == s[..8] && (s + t)[8..] == s[8..] + t;
      PackAppend(s[8..], t);
    }
  }

  lemma {:induction false} UnpackPack(s: Bits)
    ensures Unpack(Bytes(s)) + Rem(s) == s
  {
    if |s| >= 8 {
      UnpackPack(s[8..]);
      BitsOfVal(s[..8]);
      assert s == s[..8] + s[8..];
    }
  }

  /** The padding `flush_bits` appends. */
  const ONES: Bits := [true, true, true, true, true, true, true]

  /** A finished segment's data bytes: the bits, filled up to a byte boundary with ones. */
  function Padded(s: Bits): seq<Byte> { Bytes(s + ONES) }

  /** Padding never loses a bit and adds fewer than eight. */
  lemma UnpackPadded(s: Bits)
    ensures |s| <= |Unpack(Padded(s))| <= |s| + 7
    ensures Unpack(Padded(s))[..|s|] == s
    ensures forall i :: |s| <= i < |Unpack(Padded(s))| ==> Unpack(Padded(s))[i]
  {
    var u, r := Unpack(Padded(s)), Rem(s + ONES);
    UnpackPack(s + ONES);
    UnpackWhole(Padded(s));
    assert |u| + |r| == |s| + 7;
    assert u == (s + ONES)[..|u|];
  }

  lemma {:induction false} UnpackWhole(bs: seq<Byte>)
    ensures |Unpack(bs)| == 8 * |bs|
  {
    if bs != [] {
      UnpackWhole(bs[1..]);
    }
  }

  // ---------------------------------------------------------------- byte stuffing

  function Stuff(bs: seq<Byte>): seq<Byte>
  {
    if bs == [] then []
    else if bs[0] == 0xFF then [0xFF, 0x00] + Stuff(bs[1..])
    else [bs[0]] + Stuff(bs[1..])
  }

  lemma {:induction false} StuffAppend(a: seq<Byte>, b: seq<Byte>)
    ensures Stuff(a + b) == Stuff(a) + Stuff(b)
  {
    if a == [] {
      assert a + b == b;
    } else {
      assert (a + b)[1..] == a[1..] + b;
      StuffAppend(a[1..], b);
    }
  }

  /** In stuffed data every 0xFF is followed by a zero byte, so it contains no marker. */
  lemma {:induction false} StuffedHasNoMarker(bs: seq<Byte>)
    ensures forall i :: 0 <= i < |Stuff(bs)| && Stuff(bs)[i] == 0xFF ==> i + 1 < |Stuff(bs)| && Stuff(bs)[i + 1] == 0
  {
    if bs != [] {
      StuffedHasNoMarker(bs[1..]);
    }
  }

  // ---------------------------------------------------------------- segments and restart markers

  /** RST0 to RST7 in turn. */
  const RST0: Byte := 0xD0

  function RestartMarker(n: nat): seq<Byte> { [0xFF, RST0 + n % 8] }

  /** The finished segments, each followed by its restart marker; markers are numbered modulo 8. */
  function Sealed(segs: seq<Bits>): seq<Byte>
  {
    if segs == [] then []
    else Sealed(segs[..|segs| - 1]) + Stuff(Padded(segs[|segs| - 1])) + RestartMarker(|segs| - 1)
  }

  /** A whole scan: finished segments and a last one without marker. */
  function ScanBytes(segs: seq<Bits>, last: Bits): seq<Byte>
  {
    Sealed(segs) + Stuff(Padded(last))
  }

  /** What a decoder sees: the unstuffed bytes of each segment, split at the restart markers, which
      must come in order starting with number `n`; None for any other marker or a dangling 0xFF. */
  function Split(bs: seq<Byte>, n: nat): (r: Option<seq<seq<Byte>>>)
    ensures r.Some? ==> r.value != []
  {
    if bs == [] then Some([[]])
    else if bs[0] != 0xFF then Prepend(bs[0], Split(bs[1..], n))
    else if |bs| == 1 then None
    else if bs[1] == 0 then Prepend(0xFF, Split(bs[2..], n))
    else if bs[1] == 0xD0 + n % 8 then
      match Split(bs[2..], n + 1) {
        case None => None
        case Some(segs) => Some([[]] + segs)
      }
    else None
  }

  function Prepend(b: Byte, segs: Option<seq<seq<Byte>>>): (r: Option<seq<seq<Byte>>>)
    requires segs.Some? ==> segs.value != []
    ensures r.Some? ==> r.value != []
  {
    match segs
    case None => None
    case Some(ss) => Some([[b] + ss[0]] + ss[1..])
  }

  lemma {:induction false} SplitStuffed(d: seq<Byte>, rest: seq<Byte>, n: nat)
    requires Split(rest, n).Some?
    ensures var ss := Split(rest, n).value;
      Split(Stuff(d) + rest, n) == Some([d + ss[0]] + ss[1..])
  {
    var ss := Split(rest, n).value;
    if d == [] {
      assert Stuff(d) + rest == rest;
      assert d + ss[0] == ss[0];
      assert [ss[0]] + ss[1..] == ss;
    } else {
      SplitStuffed(d[1..], rest, n);
      var w := Stuff(d) + rest;
      assert [d[0]] + (d[1..] + ss[0]) == d + ss[0];
      if d[0] == 0xFF {
        assert w[0] == 0xFF && w[1] == 0 && w[2..] == Stuff(d[1..]) + rest;
      } else {
        assert w[0] == d[0] && w[1..] == Stuff(d[1..]) + rest;
      }
    }
  }

  function DataSegments(segs: seq<Bits>): seq<seq<Byte>>
  {
    seq(|segs|, i requires 0 <= i < |segs| => Padded(segs[i]))
  }

  lemma {:induction false} SplitSealed(segs: seq<Bits>, rest: seq<Byte>)
    requires Split(rest, |segs|).Some?
    ensures Split(Sealed(segs) + rest, 0) == Some(DataSegments(segs) + Split(rest, |segs|).value)
  {
    hide Padded, Stuff;
    if segs == [] {
      assert Sealed(segs) + rest == rest;
      assert DataSegments(segs) + Split(rest, 0).value == Split(rest, 0).value;
    } else {
      var n := |segs| - 1;
      var d := Padded(segs[n]);
      var tail := RestartMarker(n) + rest;
      assert tail[..2] == RestartMarker(n) && tail[2..] == rest;
      var ss := Split(rest, n + 1).value;
      assert Split(tail, n) == Some([[]] + ss);
      SplitStuffed(d, tail, n);
      assert d + [] == d;
      Regrouped(Sealed(segs[..n]), Stuff(d), RestartMarker(n), rest);
      SplitSealed(segs[..n], Stuff(d) + tail);
      assert DataSegments(segs) == DataSegments(segs[..n]) + [d];
      Joined3(DataSegments(segs[..n]), [d], ss);
    }
  }

  lemma Regrouped(a: seq<Byte>, b: seq<Byte>, c: seq<Byte>, d: seq<Byte>)
    ensures (a + b + c) + d == a + (b + (c + d)) && (a + (b + c)) + d == a + (b + (c + d))
  {
  }

  lemma Joined3(a: seq<seq<Byte>>, b: seq<seq<Byte>>, c: seq<seq<Byte>>)
    ensures (a + b) + c == a + (b + c)
  {
  }

  /** Splitting a scan at its markers and undoing the stuffing returns the padded segments. */
  lemma SplitScan(segs: seq<Bits>, last: Bits)
    ensures Split(ScanBytes(segs, last), 0) == Some(DataSegments(segs + [last]))
  {
    var d := Padded(last);
    assert Split([], |segs|) == Some([[]]);
    SplitStuffed(d, [], |segs|);
    assert Stuff(d) + [] == Stuff(d) && d + [] == d;
    assert [d] + [[]][1..] == [d];
    assert Split(Stuff(d), |segs|) == Some([d]);
    SplitSealed(segs, Stuff(d));
    assert DataSegments(segs + [last]) == DataSegments(segs) + [d];
  }
}
