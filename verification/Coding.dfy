/** The symbol layer between the coefficient coders and the bit writer: what is emitted is a
    sequence of Huffman symbols and raw bit fields. */
module Coding {
  import opened Wrappers
  import opened BitStrings
  import opened HuffmanTables

  /** One emission: a Huffman symbol of table `tbl`, or a field of raw bits. */
  datatype Token = Sym(tbl: nat, sym: nat) | Raw(bits: Bits)

  /** A symbol code as both sides know it: what the encoder writes for a symbol of a table, if it
      has a code, and how the decoder reads one symbol of a table. */
  datatype Codec = Codec(write: (nat, nat) -> Option<Bits>, read: (nat, Bits) -> Option<(nat, Bits)>)

  /** The decoder reads back every symbol the encoder can write, whatever follows it. */
  ghost predicate Sound(c: Codec) {
    forall tbl: nat, s: nat, rest: Bits :: c.write(tbl, s).Some? ==> ReadsBack(c, tbl, s, rest)
  }

  ghost predicate ReadsBack(c: Codec, tbl: nat, s: nat, rest: Bits)
    requires c.write(tbl, s).Some?
  {
    c.read(tbl, c.write(tbl, s).value + rest) == Some((s, rest))
  }

  /** The token can be emitted: a symbol needs a code. */
  predicate Codable(c: Codec, t: Token) {
    match t
    case Sym(tbl, s) => c.write(tbl, s).Some?
    case Raw(bits) => true
  }

  function TokenBits(c: Codec, t: Token): Bits
  {
    match t
    case Sym(tbl, s) => if c.write(tbl, s).Some? then c.write(tbl, s).value else []
    case Raw(bits) => bits
  }

  predicate AllCodable(c: Codec, ts: seq<Token>) {
    ts == [] || (Codable(c, ts[0]) && AllCodable(c, ts[1..]))
  }

  /** The bits of a token sequence, followed by `rest`. */
  function Follow(c: Codec, ts: seq<Token>, rest: Bits): Bits
  {
    if ts == [] then rest else TokenBits(c, ts[0]) + Follow(c, ts[1..], rest)
  }

  function StreamBits(c: Codec, ts: seq<Token>): Bits { Follow(c, ts, []) }

  lemma {:induction false} FollowAppend(c: Codec, a: seq<Token>, b: seq<Token>, rest: Bits)
    ensures Follow(c, a + b, rest) == Follow(c, a, Follow(c, b, rest))
  {
    if a == [] {
      assert a + b == b;
    } else {
      assert (a + b)[1..] == a[1..] + b;
      FollowAppend(c, a[1..], b, rest);
    }
  }

  lemma {:induction false} FollowRest(c: Codec, ts: seq<Token>, rest: Bits)
    ensures Follow(c, ts, rest) == StreamBits(c, ts) + rest
  {
    if ts != [] {
      FollowRest(c, ts[1..], rest);
    }
  }

  lemma StreamAppend(c: Codec, a: seq<Token>, b: seq<Token>)
    ensures StreamBits(c, a + b) == StreamBits(c, a) + StreamBits(c, b)
  {
    FollowAppend(c, a, b, []);
    FollowRest(c, a, StreamBits(c, b));
  }

  lemma StreamOne(c: Codec, t: Token)
    ensures StreamBits(c, [t]) == TokenBits(c, t)
    ensures AllCodable(c, [t]) <==> Codable(c, t)
  {
    assert [t][1..] == [];
    assert Follow(c, [t][1..], []) == [];
    assert TokenBits(c, t) + [] == TokenBits(c, t);
  }

  lemma {:induction false} CodableAppend(c: Codec, a: seq<Token>, b: seq<Token>)
    ensures AllCodable(c, a + b) <==> AllCodable(c, a) && AllCodable(c, b)
  {
    if a == [] {
      assert a + b == b;
    } else {
      assert (a + b)[1..] == a[1..] + b;
      CodableAppend(c, a[1..], b);
    }
  }

  /** Single-bit fields, as `emit_buffered_bits` writes them. */
  function RawEach(bits: Bits): seq<Token>
  {
    if bits == [] then [] else [Raw([bits[0]])] + RawEach(bits[1..])
  }

  lemma {:induction false} RawEachFollow(c: Codec, bits: Bits, rest: Bits)
    ensures Follow(c, RawEach(bits), rest) == bits + rest
    ensures AllCodable(c, RawEach(bits))
  {
    if bits == [] {
      assert bits + rest == rest;
    } else {
      RawEachFollow(c, bits[1..], rest);
      assert [bits[0]] + (bits[1..] + rest) == bits + rest;
    }
  }

  // ---------------------------------------------------------------- reading

  function ReadBits(n: nat, bits: Bits): Option<(Bits, Bits)>
  {
    if n <= |bits| then Some((bits[..n], bits[n..])) else None
  }

  lemma ReadBitsToken(b: Bits, rest: Bits)
    ensures ReadBits(|b|, b + rest) == Some((b, rest))
  {
  }

  lemma ReadSymbolToken(c: Codec, tbl: nat, s: nat, rest: Bits)
    requires Sound(c) && Codable(c, Sym(tbl, s))
    ensures c.read(tbl, TokenBits(c, Sym(tbl, s)) + rest) == Some((s, rest))
  {
    assert ReadsBack(c, tbl, s, rest);
  }

  // ---------------------------------------------------------------- Huffman tables as a codec

  /** A published table together with the codes the encoder derived from it. */
  datatype CodeBook = CodeBook(huff: HuffTable, isDC: bool, derived: Derived) {
    ghost predicate Valid() { IsDerived(huff, isDC, derived) }
  }

  type Books = bs: seq<CodeBook> | forall i :: 0 <= i < |bs| ==> BookValid(bs, i) witness []

  ghost predicate BookValid(books: seq<CodeBook>, i: nat)
    requires i < |books|
  {
    books[i].Valid()
  }

  ghost function BookWrite(books: Books, tbl: nat, s: nat): Option<Bits>
  {
    if tbl < |books| && s < 256 && (assert BookValid(books, tbl); books[tbl].derived.HasCode(s))
    then Some(books[tbl].derived.CodeBits(s)) else None
  }

  ghost function BookRead(books: Books, tbl: nat, bits: Bits): Option<(nat, Bits)>
  {
    if tbl < |books| then
      assert BookValid(books, tbl);
      DecodeSymbol(books[tbl].huff, bits)
    else None
  }

  ghost function HuffmanCodec(books: Books): Codec
  {
    Codec((tbl: nat, s: nat) => BookWrite(books, tbl, s), (tbl: nat, bits: Bits) => BookRead(books, tbl, bits))
  }

  /** Accepted Huffman tables are a sound codec. */
  lemma HuffmanSound(books: Books)
    ensures Sound(HuffmanCodec(books))
  {
    var c := HuffmanCodec(books);
    forall tbl: nat, s: nat, rest: Bits | c.write(tbl, s).Some? ensures ReadsBack(c, tbl, s, rest) {
      assert BookValid(books, tbl);
      var bk := books[tbl];
      DecodeInvertsCode(bk.huff, bk.isDC, bk.derived, s, rest);
    }
  }
}
