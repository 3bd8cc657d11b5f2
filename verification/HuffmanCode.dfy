// The compressed format: counts, code table, bit stream, file layout, and decoding.
module HuffmanCode {
  import opened Bytes
  import opened Optimality
  import opened HuffmanTree
  import opened Heap

  // ---------- symbol counts ----------

  function Freq(data: seq<byte>): map<byte, nat> {
    map b | b in data :: multiset(data)[b]
  }

  function CountOf(m: map<byte, nat>, b: byte): nat {
    if b in m then m[b] else 0
  }

  lemma FreqAppend(data: seq<byte>, b: byte)
    ensures Freq(data + [b]) == Freq(data)[b := CountOf(Freq(data), b) + 1]
  {
    var m := Freq(data + [b]);
    assert multiset(data + [b]) == multiset(data) + multiset{b};
    assert m.Keys == Freq(data).Keys + {b};
    forall x | x in m ensures m[x] == Freq(data)[b := CountOf(Freq(data), b) + 1][x] {
      assert m[x] == multiset(data)[x] + multiset{b}[x];
    }
  }

  lemma OneKey(m: map<byte, nat>)
    requires |m| == 1
    ensures exists ch :: m.Keys == {ch}
  {
    var ch :| ch in m.Keys;
    assert |m.Keys - {ch}| == 0;
    assert m.Keys == {ch};
  }

  /** A one-symbol alphabet gets a second symbol of weight zero. */
  function WithDummy(m: map<byte, nat>): map<byte, nat> {
    if |m| == 1 then
      OneKey(m);
      var ch :| m.Keys == {ch};
      m[(ch + 1) % 256 := 0]
    else m
  }

  function Counts(data: seq<byte>): map<byte, nat> {
    WithDummy(Freq(data))
  }

  /** A text of one symbol: the next byte stands beside it, with weight zero. */
  lemma CountsOfOne(data: seq<byte>, ch: byte)
    requires data != [] && forall i :: 0 <= i < |data| ==> data[i] == ch
    ensures Counts(data) == map[ch := |data|][(ch + 1) % 256 := 0]
  {
    var f := Freq(data);
    assert data[0] in f;
    AllSame(data, ch);
    assert f.Keys == {ch} && |f| == |f.Keys|;
    assert f == map[ch := |data|];
  }

  lemma {:induction false} AllSame(data: seq<byte>, ch: byte)
    requires forall i :: 0 <= i < |data| ==> data[i] == ch
    ensures multiset(data)[ch] == |data|
  {
    if data != [] {
      AllSame(data[1..], ch);
      assert data == [data[0]] + data[1..];
    }
  }

  /** A text of more symbols: nothing but its own bytes. */
  lemma CountsOfMore(data: seq<byte>, i: nat, j: nat)
    requires i < j < |data| && data[i] != data[j]
    ensures Counts(data) == Freq(data)
  {
    var f := Freq(data);
    assert data[i] in f.Keys && data[j] in f.Keys;
    if |f| == 1 {
      OneKey(f);
      assert false;
    }
  }

  function TreeOf(data: seq<byte>): Tree
    requires |LeavesOf(Counts(data), 256)| > 0
  {
    Build(LeavesOf(Counts(data), 256))
  }

  // ---------- the code table ----------

  /** Path codes of the leaves of t, added to m in left-to-right order. */
  function Table(t: Tree, prefix: string, m: map<byte, string>): map<byte, string> {
    match t
    case Leaf(ch, _) => m[ch := prefix]
    case Node(_, l, r) => Table(r, prefix + "1", Table(l, prefix + "0", m))
  }

  /** Following code from t's root ends in a leaf for ch. */
  predicate IsPath(t: Tree, code: string, ch: byte) {
    match t
    case Leaf(c, _) => code == "" && c == ch
    case Node(_, l, r) =>
      code != "" && (code[0] == '0' || code[0] == '1') && IsPath(if code[0] == '1' then r else l, code[1..], ch)
  }

  predicate Has(t: Tree, ch: byte) {
    match t
    case Leaf(c, _) => c == ch
    case Node(_, l, r) => Has(l, ch) || Has(r, ch)
  }

  lemma {:induction false} TableEntries(t: Tree, prefix: string, m: map<byte, string>, ch: byte)
    ensures var r := Table(t, prefix, m);
      if Has(t, ch) then
        ch in r && |prefix| <= |r[ch]| && r[ch][..|prefix|] == prefix && IsPath(t, r[ch][|prefix|..], ch)
      else
        (ch in r <==> ch in m) && (ch in m ==> r[ch] == m[ch])
  {
    match t
    case Leaf(_, _) =>
      if Has(t, ch) {
        assert prefix[..|prefix|] == prefix && prefix[|prefix|..] == "";
      }
    case Node(_, lt, rt) =>
      var m1 := Table(lt, prefix + "0", m);
      var r := Table(rt, prefix + "1", m1);
      TableEntries(lt, prefix + "0", m, ch);
      TableEntries(rt, prefix + "1", m1, ch);
      if Has(rt, ch) {
        assert r[ch][|prefix|..][0] == (prefix + "1")[|prefix|];
        assert r[ch][|prefix|..][1..] == r[ch][|prefix| + 1..];
        assert r[ch][..|prefix|] == r[ch][..|prefix| + 1][..|prefix|];
      } else if Has(lt, ch) {
        assert r[ch] == m1[ch];
        assert r[ch][|prefix|..][0] == (prefix + "0")[|prefix|];
        assert r[ch][|prefix|..][1..] == r[ch][|prefix| + 1..];
        assert r[ch][..|prefix|] == r[ch][..|prefix| + 1][..|prefix|];
      }
  }

  lemma TablePaths(t: Tree, ch: byte)
    requires Has(t, ch)
    ensures ch in Table(t, "", map[]) && IsPath(t, Table(t, "", map[])[ch], ch)
  {
    TableEntries(t, "", map[], ch);
    var r := Table(t, "", map[]);
    assert r[ch][0..] == r[ch];
  }

  // ---------- decoding ----------

  /** Where the decoder stands: an inner node, and the bytes decoded so far. */
  datatype Cursor = Cursor(node: Tree, out: seq<byte>)

  /** One bit: go down, and at a leaf output its byte and restart. A bit of -1 does not move. */
  function Step(root: Tree, st: Cursor, bit: int): (r: Cursor)
    requires root.Node? && st.node.Node?
    ensures r.node.Node?
  {
    var n := if bit == 0 then st.node.left else if bit == 1 then st.node.right else st.node;
    if n.Leaf? then Cursor(root, st.out + [n.ch]) else Cursor(n, st.out)
  }

  function BitOf(c: char): int {
    if c == '1' then 1 else 0
  }

  function Run(root: Tree, st: Cursor, bits: string): (r: Cursor)
    requires root.Node? && st.node.Node?
    ensures r.node.Node?
  {
    if bits == "" then st
    else Step(root, Run(root, st, bits[..|bits| - 1]), BitOf(bits[|bits| - 1]))
  }

  lemma {:induction false} RunConcat(root: Tree, st: Cursor, a: string, b: string)
    requires root.Node? && st.node.Node?
    ensures Run(root, st, a + b) == Run(root, Run(root, st, a), b)
    decreases |b|
  {
    if b == "" {
      assert a + b == a;
    } else {
      var b' := b[..|b| - 1];
      assert (a + b)[..|a + b| - 1] == a + b';
      RunConcat(root, st, a, b');
    }
  }

  lemma {:induction false} RunCons(root: Tree, st: Cursor, bits: string)
    requires root.Node? && st.node.Node? && bits != ""
    ensures Run(root, st, bits) == Run(root, Step(root, st, BitOf(bits[0])), bits[1..])
  {
    assert bits == bits[..1] + bits[1..];
    RunConcat(root, st, bits[..1], bits[1..]);
    assert bits[..1][..0] == "";
  }

  /** From any inner node, the rest of a path outputs exactly its byte. */
  lemma {:induction false} WalkPath(root: Tree, st: Cursor, code: string, ch: byte)
    requires root.Node? && st.node.Node? && IsPath(st.node, code, ch)
    ensures Run(root, st, code) == Cursor(root, st.out + [ch])
    decreases |code|
  {
    RunCons(root, st, code);
    var st' := Step(root, st, BitOf(code[0]));
    var n := if code[0] == '1' then st.node.right else st.node.left;
    if n.Node? {
      WalkPath(root, st', code[1..], ch);
    }
  }

  // ---------- the bit stream ----------

  predicate Covers(table: map<byte, string>, data: seq<byte>) {
    forall b :: b in data ==> b in table
  }

  /** The code words of the first n bytes. */
  function EncodeFirst(table: map<byte, string>, data: seq<byte>, n: nat): string
    requires Covers(table, data) && n <= |data|
  {
    if n == 0 then "" else EncodeFirst(table, data, n - 1) + table[data[n - 1]]
  }

  function Encode(table: map<byte, string>, data: seq<byte>): string
    requires Covers(table, data)
  {
    EncodeFirst(table, data, |data|)
  }

  /** Prefix codes decode: after n code words the decoder has output n bytes and is back at the root. */
  lemma {:induction false} DecodeFirst(t: Tree, data: seq<byte>, n: nat)
    requires t.Node? && (forall b :: b in data ==> Has(t, b)) && n <= |data|
    ensures Covers(Table(t, "", map[]), data)
    ensures Run(t, Cursor(t, []), EncodeFirst(Table(t, "", map[]), data, n)) == Cursor(t, data[..n])
  {
    var table := Table(t, "", map[]);
    forall b | b in data ensures b in table {
      TablePaths(t, b);
    }
    if n > 0 {
      var b := data[n - 1];
      DecodeFirst(t, data, n - 1);
      TablePaths(t, b);
      RunConcat(t, Cursor(t, []), EncodeFirst(table, data, n - 1), table[b]);
      WalkPath(t, Cursor(t, data[..n - 1]), table[b], b);
      assert data[..n - 1] + [b] == data[..n];
    }
  }

  lemma DecodeEncoded(t: Tree, data: seq<byte>)
    requires t.Node? && forall b :: b in data ==> Has(t, b)
    ensures Covers(Table(t, "", map[]), data)
    ensures Run(t, Cursor(t, []), Encode(Table(t, "", map[]), data)) == Cursor(t, data)
  {
    DecodeFirst(t, data, |data|);
    assert data[..|data|] == data;
  }

  // ---------- bytes and bits ----------

  /** The byte whose first |bits| bits are given, the rest zero. */
  function ByteOf(bits: string): byte
    requires |bits| <= 8
  {
    if bits == "" then 0 else SetBit(ByteOf(bits[..|bits| - 1]), |bits| - 1, bits[|bits| - 1] == '1')
  }

  /** The first n bits of b. */
  function BitsOf(b: byte, n: nat): (s: string)
    requires n <= 8
    ensures |s| == n
  {
    if n == 0 then "" else BitsOf(b, n - 1) + [if GetBit(b, n - 1) == 1 then '1' else '0']
  }

  lemma {:induction false} BitsOfIndex(b: byte, n: nat, j: nat)
    requires j < n <= 8
    ensures BitsOf(b, n)[j] == if GetBit(b, j) == 1 then '1' else '0'
  {
    if j < n - 1 { BitsOfIndex(b, n - 1, j); }
  }

  lemma {:induction false} ByteOfBit(bits: string, j: nat)
    requires j < |bits| <= 8
    ensures GetBit(ByteOf(bits), j) == BitOf(bits[j])
  {
    var init := bits[..|bits| - 1];
    SetThenGet(ByteOf(init), |init|, bits[|init|] == '1', j);
    if j < |init| { ByteOfBit(init, j); }
  }

  lemma BitsOfByteOf(bits: string)
    requires |bits| <= 8 && IsBinary(bits)
    ensures BitsOf(ByteOf(bits), |bits|) == bits
  {
    forall j | 0 <= j < |bits| ensures BitsOf(ByteOf(bits), |bits|)[j] == bits[j] {
      BitsOfIndex(ByteOf(bits), |bits|, j);
      ByteOfBit(bits, j);
    }
  }

  /** Whole bytes of the stream, in order. */
  function FullBytes(bits: string): (s: seq<byte>)
    ensures |s| == |bits| / 8
  {
    seq(|bits| / 8, i requires 0 <= i < |bits| / 8 => ByteOf(bits[8 * i..8 * i + 8]))
  }

  /** The bits left over after the whole bytes. */
  function Rest(bits: string): (s: string)
    ensures |s| == |bits| % 8
  {
    bits[|bits| / 8 * 8..]
  }

  function AllBits(bytes: seq<byte>): (s: string)
    ensures |s| == 8 * |bytes|
  {
    if bytes == [] then "" else AllBits(bytes[..|bytes| - 1]) + BitsOf(bytes[|bytes| - 1], 8)
  }

  /** Adding one bit either extends the open byte or completes it. */
  lemma AppendBit(bits: string, c: char)
    ensures if |bits| % 8 == 7
      then FullBytes(bits + [c]) == FullBytes(bits) + [ByteOf(Rest(bits) + [c])] && Rest(bits + [c]) == ""
      else FullBytes(bits + [c]) == FullBytes(bits) && Rest(bits + [c]) == Rest(bits) + [c]
  {
    var n := |bits| / 8;
    assert forall i :: 0 <= i < n ==> (bits + [c])[8 * i..8 * i + 8] == bits[8 * i..8 * i + 8];
    if |bits| % 8 == 7 {
      assert (bits + [c])[8 * n..8 * n + 8] == Rest(bits) + [c];
    }
  }

  lemma FullByteAt(bits: string, k: nat)
    requires 0 < k <= |bits| / 8
    ensures 8 * k <= |bits| && FullBytes(bits)[k - 1] == ByteOf(bits[8 * (k - 1)..8 * k])
  {
    assert 8 * (k - 1) + 8 == 8 * k;
  }

  lemma LastByteBits(bytes: seq<byte>, k: nat)
    requires 0 < k <= |bytes|
    ensures AllBits(bytes[..k]) == AllBits(bytes[..k - 1]) + BitsOf(bytes[k - 1], 8)
  {
    assert bytes[..k][..k - 1] == bytes[..k - 1];
  }

  lemma {:induction false} FullBytesBits(bits: string, k: nat)
    requires IsBinary(bits) && k <= |bits| / 8
    ensures AllBits(FullBytes(bits)[..k]) == bits[..8 * k]
  {
    if k > 0 {
      FullBytesBits(bits, k - 1);
      FullByteAt(bits, k);
      NextByteBits(bits, FullBytes(bits), k, 8 * (k - 1), 8 * k);
    }
  }

  lemma NextByteBits(bits: string, bytes: seq<byte>, k: nat, lo: nat, hi: nat)
    requires IsBinary(bits) && 0 < k <= |bytes| && hi == lo + 8 <= |bits|
    requires AllBits(bytes[..k - 1]) == bits[..lo] && bytes[k - 1] == ByteOf(bits[lo..hi])
    ensures AllBits(bytes[..k]) == bits[..hi]
  {
    WordBits(bits, lo);
    LastByteBits(bytes, k);
    PrefixGrows(bits, lo, hi);
  }

  lemma WordBits(bits: string, lo: nat)
    requires IsBinary(bits) && lo + 8 <= |bits|
    ensures BitsOf(ByteOf(bits[lo..lo + 8]), 8) == bits[lo..lo + 8]
  {
    BitsOfByteOf(bits[lo..lo + 8]);
  }

  /** Nothing of the stream is lost between whole bytes and the open byte. */
  lemma StreamSplits(bits: string)
    requires IsBinary(bits)
    ensures AllBits(FullBytes(bits)) + BitsOf(ByteOf(Rest(bits)), |Rest(bits)|) == bits
  {
    var n := |bits| / 8;
    FullBytesBits(bits, n);
    WholePrefix(FullBytes(bits));
    BitsOfByteOf(Rest(bits));
    SplitAt(bits, 8 * n);
  }

  // ---------- file layout ----------

  /** One record per counted byte below k: the byte and its 64-bit weight. */
  function Records(m: map<byte, nat>, k: nat): (s: seq<byte>)
    requires k <= 256
    ensures |s| == 9 * |LeavesOf(m, k)|
  {
    if k == 0 then []
    else if k - 1 in m then Records(m, k - 1) + [k - 1] + LE(m[k - 1], 8)
    else Records(m, k - 1)
  }

  function FileHeader(m: map<byte, nat>, effective: nat): (s: seq<byte>)
    ensures |s| == 8 + 9 * |LeavesOf(m, 256)|
  {
    LE(|LeavesOf(m, 256)|, 4) + LE(effective, 4) + Records(m, 256)
  }

  function CodeTable(data: seq<byte>): map<byte, string>
    requires |LeavesOf(Counts(data), 256)| > 0
  {
    Table(TreeOf(data), "", map[])
  }

  /** The displaced last byte sits in front of the whole bytes; it stays zero when no bit is left over. */
  function Body(bits: string): seq<byte> {
    [ByteOf(Rest(bits))] + FullBytes(bits)
  }
}
