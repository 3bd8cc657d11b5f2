// Why the greedy merge is optimal, stated on weights and code lengths alone.
//
// A code assigns a length to every symbol.  Binary prefix codes are exactly the
// assignments whose lengths satisfy Kraft's inequality, so a lower bound for all
// such assignments is a lower bound for all binary trees and all prefix codes.
module Optimality {
  import opened Bytes

  lemma {:induction false} Pow2Mono(a: nat, b: nat)
    requires a <= b
    ensures Pow2(a) <= Pow2(b)
  {
    if a < b { Pow2Mono(a, b - 1); }
  }

  function Total(s: seq<nat>): nat
  {
    if s == [] then 0 else s[0] + Total(s[1..])
  }

  /** Total length of the encoded text: each weight times its code length. */
  function CodeCost(ws: seq<nat>, ls: seq<nat>): nat
    requires |ws| == |ls|
  {
    if ws == [] then 0 else ws[0] * ls[0] + CodeCost(ws[1..], ls[1..])
  }

  ghost predicate Bounded(ls: seq<nat>, m: nat) {
    forall i :: 0 <= i < |ls| ==> ls[i] <= m
  }

  /** The Kraft sum scaled by 2^m, so that it stays an integer. */
  function Kraft(ls: seq<nat>, m: nat): nat
    requires Bounded(ls, m)
  {
    if ls == [] then 0 else Pow2(m - ls[0]) + Kraft(ls[1..], m)
  }

  // ---------- how the sums react to an update, a removal, or a larger scale ----------

  lemma {:induction false} CodeCostUpdate(ws: seq<nat>, ls: seq<nat>, i: nat, l: nat)
    requires |ws| == |ls| && i < |ls|
    ensures CodeCost(ws, ls[i := l]) == CodeCost(ws, ls) + ws[i] * l - ws[i] * ls[i]
  {
    if i > 0 {
      assert ls[i := l][1..] == ls[1..][i - 1 := l];
      CodeCostUpdate(ws[1..], ls[1..], i - 1, l);
    }
  }

  lemma {:induction false} CodeCostReweigh(ws: seq<nat>, ls: seq<nat>, i: nat, w: nat)
    requires |ws| == |ls| && i < |ls|
    ensures CodeCost(ws[i := w], ls) == CodeCost(ws, ls) + w * ls[i] - ws[i] * ls[i]
  {
    if i > 0 {
      assert ws[i := w][1..] == ws[1..][i - 1 := w];
      CodeCostReweigh(ws[1..], ls[1..], i - 1, w);
    }
  }

  function Without<T>(s: seq<T>, i: nat): seq<T>
    requires i < |s|
  {
    s[..i] + s[i + 1..]
  }

  lemma {:induction false} CodeCostWithout(ws: seq<nat>, ls: seq<nat>, i: nat)
    requires |ws| == |ls| && i < |ls|
    ensures CodeCost(Without(ws, i), Without(ls, i)) == CodeCost(ws, ls) - ws[i] * ls[i]
  {
    if i == 0 {
      assert Without(ws, 0) == ws[1..] && Without(ls, 0) == ls[1..];
    } else {
      assert Without(ws, i)[1..] == Without(ws[1..], i - 1);
      assert Without(ls, i)[1..] == Without(ls[1..], i - 1);
      CodeCostWithout(ws[1..], ls[1..], i - 1);
    }
  }

  lemma {:induction false} KraftUpdate(ls: seq<nat>, m: nat, i: nat, l: nat)
    requires Bounded(ls, m) && i < |ls| && l <= m
    ensures Bounded(ls[i := l], m)
    ensures Kraft(ls[i := l], m) == Kraft(ls, m) + Pow2(m - l) - Pow2(m - ls[i])
  {
    if i > 0 {
      assert ls[i := l][1..] == ls[1..][i - 1 := l];
      KraftUpdate(ls[1..], m, i - 1, l);
    }
  }

  lemma {:induction false} KraftWithout(ls: seq<nat>, m: nat, i: nat)
    requires Bounded(ls, m) && i < |ls|
    ensures Bounded(Without(ls, i), m)
    ensures Kraft(Without(ls, i), m) == Kraft(ls, m) - Pow2(m - ls[i])
  {
    if i == 0 {
      assert Without(ls, 0) == ls[1..];
    } else {
      assert Without(ls, i)[1..] == Without(ls[1..], i - 1);
      KraftWithout(ls[1..], m, i - 1);
    }
  }

  lemma {:induction false} KraftRescale(ls: seq<nat>, m: nat)
    requires Bounded(ls, m)
    ensures Bounded(ls, m + 1) && Kraft(ls, m + 1) == 2 * Kraft(ls, m)
  {
    if ls != [] {
      KraftRescale(ls[1..], m);
    }
  }

  lemma {:induction false} KraftShrink(ls: seq<nat>, m: nat, k: nat)
    requires Bounded(ls, m) && m <= k && Kraft(ls, k) <= Pow2(k)
    ensures Kraft(ls, m) <= Pow2(m)
    decreases k
  {
    if m < k {
      KraftRescale(ls, k - 1);
      KraftShrink(ls, m, k - 1);
    }
  }

  /** Modulo 2, the scaled Kraft sum counts the symbols of full length m. */
  lemma {:induction false} KraftParity(ls: seq<nat>, m: nat)
    requires m > 0 && Bounded(ls, m)
    ensures (forall i :: 0 <= i < |ls| ==> ls[i] < m) ==> Kraft(ls, m) % 2 == 0
    ensures forall j :: 0 <= j < |ls| && ls[j] == m && (forall i :: 0 <= i < |ls| && i != j ==> ls[i] < m)
              ==> Kraft(ls, m) % 2 == 1
  {
    if ls != [] {
      var tail := ls[1..];
      KraftParity(tail, m);
      assert ls[0] < m ==> Pow2(m - ls[0]) == 2 * Pow2(m - ls[0] - 1);
      assert Pow2(0) == 1;
      if ls[0] == m {
        forall j | 0 <= j < |ls| && ls[j] == m && (forall i :: 0 <= i < |ls| && i != j ==> ls[i] < m)
          ensures Kraft(ls, m) % 2 == 1
        {
          assert forall i :: 0 <= i < |tail| ==> tail[i] == ls[i + 1];
        }
      } else {
        forall j | 0 <= j < |ls| && ls[j] == m && (forall i :: 0 <= i < |ls| && i != j ==> ls[i] < m)
          ensures Kraft(ls, m) % 2 == 1
        {
          assert tail[j - 1] == m;
          assert forall i :: 0 <= i < |tail| ==> tail[i] == ls[i + 1];
        }
      }
    }
  }

  // ---------- exchanging and merging ----------

  function MaxLength(ls: seq<nat>): (m: nat)
    ensures Bounded(ls, m)
    ensures ls != [] ==> m in ls
  {
    if ls == [] then 0
    else
      var t := MaxLength(ls[1..]);
      if ls[0] >= t then ls[0] else t
  }

  lemma {:induction false} KraftOfZeros(ls: seq<nat>)
    requires Bounded(ls, 0)
    ensures Kraft(ls, 0) == |ls|
  {
    if ls != [] { KraftOfZeros(ls[1..]); }
  }

  function Swap(ls: seq<nat>, i: nat, j: nat): seq<nat>
    requires i < |ls| && j < |ls|
  {
    ls[i := ls[j]][j := ls[i]]
  }

  lemma Exchange(wi: nat, wj: nat, li: nat, lj: nat)
    requires wi <= wj && li <= lj
    ensures wi * lj + wj * li <= wi * li + wj * lj
  {
    assert (wj - wi) * (lj - li) >= 0;
  }

  /** Giving the longer of two codes to the lighter symbol never costs more. */
  lemma SwapCost(ws: seq<nat>, ls: seq<nat>, i: nat, j: nat)
    requires |ws| == |ls| && i < |ls| && j < |ls|
    requires ws[i] <= ws[j] && ls[i] <= ls[j]
    ensures CodeCost(ws, Swap(ls, i, j)) <= CodeCost(ws, ls)
  {
    if i == j {
      assert Swap(ls, i, j) == ls;
    } else {
      CodeCostUpdate(ws, ls, i, ls[j]);
      CodeCostUpdate(ws, ls[i := ls[j]], j, ls[i]);
      Exchange(ws[i], ws[j], ls[i], ls[j]);
    }
  }

  lemma SwapKraft(ls: seq<nat>, m: nat, i: nat, j: nat)
    requires Bounded(ls, m) && i < |ls| && j < |ls|
    ensures Bounded(Swap(ls, i, j), m)
    ensures Kraft(Swap(ls, i, j), m) == Kraft(ls, m)
  {
    KraftUpdate(ls, m, i, ls[j]);
    KraftUpdate(ls[i := ls[j]], m, j, ls[i]);
  }

  /** Entries ia and ib are replaced by the single entry x, kept at ia's place. */
  function MergeInto<T>(s: seq<T>, ia: nat, ib: nat, x: T): (s': seq<T>)
    requires ia < |s| && ib < |s|
    ensures |s'| == |s| - 1
  {
    Without(s[ia := x], ib)
  }

  lemma MergeArith(a: nat, b: nat, m: nat)
    requires m > 0
    ensures a * m + b * m == (a + b) * (m - 1) + a + b
  {
  }

  /** One merge step: two siblings of full length m become one symbol of length m - 1. */
  lemma MergeCost(ws: seq<nat>, ls: seq<nat>, m: nat, ia: nat, ib: nat)
    requires |ws| == |ls| && m > 0
    requires ia < |ls| && ib < |ls| && ia != ib && ls[ia] == m && ls[ib] == m
    ensures CodeCost(ws, ls) ==
            CodeCost(MergeInto(ws, ia, ib, ws[ia] + ws[ib]), MergeInto(ls, ia, ib, m - 1)) + ws[ia] + ws[ib]
  {
    var a, b := ws[ia], ws[ib];
    var ws1 := ws[ia := a + b];
    var ls1 := ls[ia := m - 1];
    CodeCostReweigh(ws, ls, ia, a + b);
    CodeCostUpdate(ws1, ls, ia, m - 1);
    CodeCostWithout(ws1, ls1, ib);
    MergeArith(a, b, m);
  }

  lemma MergeKraft(ls: seq<nat>, m: nat, ia: nat, ib: nat)
    requires Bounded(ls, m) && m > 0
    requires ia < |ls| && ib < |ls| && ia != ib && ls[ia] == m && ls[ib] == m
    ensures Bounded(MergeInto(ls, ia, ib, m - 1), m)
    ensures Kraft(MergeInto(ls, ia, ib, m - 1), m) == Kraft(ls, m)
  {
    KraftUpdate(ls, m, ia, m - 1);
    KraftWithout(ls[ia := m - 1], m, ib);
    assert Pow2(m - (m - 1)) == 2 * Pow2(0);
  }

  ghost predicate Feasible(ls: seq<nat>, m: nat) {
    Bounded(ls, m) && Kraft(ls, m) <= Pow2(m)
  }

  /** Two longest codes can be handed to symbols ia and ib, the lightest ones. */
  lemma HandLongest(ws: seq<nat>, ls: seq<nat>, top: nat, i: nat, j: nat, ia: nat, ib: nat) returns (ls': seq<nat>)
    requires |ws| == |ls| && Bounded(ls, top)
    requires i < |ls| && j < |ls| && i != j && ls[i] == top && ls[j] == top
    requires ia < |ws| && ib < |ws| && ia != ib
    requires forall k :: 0 <= k < |ws| && k != ia ==> ws[ia] <= ws[k] && ws[ib] <= ws[k]
    ensures |ls'| == |ls| && ls'[ia] == top && ls'[ib] == top
    ensures Bounded(ls', top) && Kraft(ls', top) == Kraft(ls, top)
    ensures CodeCost(ws, ls') <= CodeCost(ws, ls)
  {
    var ls1 := Swap(ls, ia, j);
    SwapCost(ws, ls, ia, j);
    SwapKraft(ls, top, ia, j);
    var k := if i == ia then j else i;
    ls' := Swap(ls1, ib, k);
    SwapCost(ws, ls1, ib, k);
    SwapKraft(ls1, top, ib, k);
  }

  /** Lengths for the merged alphabet that save what the merge costs. */
  lemma MergeLengths(ws: seq<nat>, ls: seq<nat>, top: nat, i: nat, j: nat, ia: nat, ib: nat) returns (ls': seq<nat>)
    requires |ws| == |ls| && Feasible(ls, top) && top > 0
    requires i < |ls| && j < |ls| && i != j && ls[i] == top && ls[j] == top
    requires ia < |ws| && ib < |ws| && ia != ib
    requires forall k :: 0 <= k < |ws| && k != ia ==> ws[ia] <= ws[k] && ws[ib] <= ws[k]
    ensures |ls'| == |ls| - 1 && Feasible(ls', top)
    ensures CodeCost(MergeInto(ws, ia, ib, ws[ia] + ws[ib]), ls') + ws[ia] + ws[ib] <= CodeCost(ws, ls)
  {
    var handed := HandLongest(ws, ls, top, i, j, ia, ib);
    MergeCost(ws, handed, top, ia, ib);
    MergeKraft(handed, top, ia, ib);
    ls' := MergeInto(handed, ia, ib, top - 1);
  }

  /** A longest code without a sibling can be shortened: the Kraft sum is then odd. */
  lemma ShortenLonely(ws: seq<nat>, ls: seq<nat>, top: nat, j: nat)
    requires |ws| == |ls| && Feasible(ls, top)
    requires top > 0 && j < |ls| && ls[j] == top
    requires forall i :: 0 <= i < |ls| && i != j ==> ls[i] < top
    ensures Feasible(ls[j := top - 1], top)
    ensures CodeCost(ws, ls[j := top - 1]) <= CodeCost(ws, ls)
    ensures Total(ls[j := top - 1]) < Total(ls)
  {
    KraftParity(ls, top);
    KraftUpdate(ls, top, j, top - 1);
    assert Pow2(top - (top - 1)) == 2 * Pow2(0);
    CodeCostUpdate(ws, ls, j, top - 1);
    MergeArith(ws[j], 0, top);
    TotalUpdate(ls, j, top - 1);
  }

  lemma {:induction false} TotalUpdate(ls: seq<nat>, i: nat, l: nat)
    requires i < |ls|
    ensures Total(ls[i := l]) == Total(ls) + l - ls[i]
  {
    if i > 0 {
      assert ls[i := l][1..] == ls[1..][i - 1 := l];
      TotalUpdate(ls[1..], i - 1, l);
    }
  }

  lemma {:induction false} TotalWithout(s: seq<nat>, i: nat)
    requires i < |s|
    ensures Total(Without(s, i)) == Total(s) - s[i]
  {
    if i == 0 {
      assert Without(s, 0) == s[1..];
    } else {
      assert Without(s, i)[1..] == Without(s[1..], i - 1);
      TotalWithout(s[1..], i - 1);
    }
  }

  lemma TotalMerge(s: seq<nat>, ia: nat, ib: nat, x: nat)
    requires ia < |s| && ib < |s| && ia != ib
    ensures Total(MergeInto(s, ia, ib, x)) == Total(s) - s[ia] - s[ib] + x
  {
    TotalUpdate(s, ia, x);
    TotalWithout(s[ia := x], ib);
  }

  // ---------- the same operations seen as multisets ----------

  lemma WithoutMultiset<T>(s: seq<T>, i: nat)
    requires i < |s|
    ensures multiset(Without(s, i)) == multiset(s) - multiset{s[i]}
  {
    assert s == s[..i] + [s[i]] + s[i + 1..];
  }

  lemma OthersRemain<T>(s: seq<T>, i: nat)
    requires i < |s|
    ensures multiset(Without(s, i)) == multiset(s) - multiset{s[i]}
    ensures forall k :: 0 <= k < |s| && k != i ==> s[k] in multiset(s) - multiset{s[i]}
  {
    WithoutMultiset(s, i);
    forall k | 0 <= k < |s| && k != i ensures s[k] in multiset(Without(s, i)) {
      assert s[k] == Without(s, i)[if k < i then k else k - 1];
    }
  }

  /** Positions of two members, the second found after taking the first away. */
  lemma Locate<T>(s: seq<T>, x: T, y: T) returns (i: nat, j: nat)
    requires x in multiset(s) && y in multiset(s) - multiset{x}
    ensures i < |s| && j < |s| && i != j && s[i] == x && s[j] == y
  {
    i :| 0 <= i < |s| && s[i] == x;
    WithoutMultiset(s, i);
    var rest := Without(s, i);
    assert y in multiset(rest);
    var k :| 0 <= k < |rest| && rest[k] == y;
    j := if k < i then k else k + 1;
  }

  lemma MergeMultiset<T>(s: seq<T>, i: nat, j: nat, x: T)
    requires i < |s| && j < |s| && i != j
    ensures multiset(MergeInto(s, i, j, x)) == multiset(s) - multiset{s[i]} - multiset{s[j]} + multiset{x}
  {
    WithoutMultiset(s[i := x], j);
    OthersRemain(s, i);
  }

  // ---------- codes as bit strings ----------

  function Lengths(codes: seq<string>): (ls: seq<nat>)
    ensures |ls| == |codes|
  {
    seq(|codes|, i requires 0 <= i < |codes| => |codes[i]|)
  }

  /** No code word is a prefix of another. */
  predicate PrefixFree(codes: seq<string>) {
    codes == [] ||
    (PrefixFree(codes[1..]) && forall c :: c in codes[1..] ==> !(codes[0] <= c) && !(c <= codes[0]))
  }

  predicate IsBinary(c: string) {
    forall k :: 0 <= k < |c| ==> c[k] == '0' || c[k] == '1'
  }

  predicate Binary(codes: seq<string>) {
    forall c :: c in codes ==> IsBinary(c)
  }

  /** What follows the first bit b, for the code words that start with b. */
  function After(codes: seq<string>, b: char): (r: seq<string>)
    ensures forall c :: c in r ==> [b] + c in codes
  {
    if codes == [] then []
    else
      var rest := After(codes[1..], b);
      if codes[0] != [] && codes[0][0] == b then
        assert codes[0] == [b] + codes[0][1..];
        [codes[0][1..]] + rest
      else rest
  }

  lemma {:induction false} AfterPrefixFree(codes: seq<string>, b: char)
    requires PrefixFree(codes)
    ensures PrefixFree(After(codes, b))
  {
    if codes != [] {
      AfterPrefixFree(codes[1..], b);
      var rest := After(codes[1..], b);
      if codes[0] != [] && codes[0][0] == b {
        var t := codes[0][1..];
        assert codes[0] == [b] + t;
        forall c | c in rest ensures !(t <= c) && !(c <= t) {
          assert [b] + c in codes[1..];
        }
        assert After(codes, b)[1..] == rest;
      }
    }
  }

  lemma LengthsBounded(codes: seq<string>, m: nat)
    requires forall c :: c in codes ==> |c| <= m
    ensures Bounded(Lengths(codes), m)
  {
  }

  ghost predicate Words(codes: seq<string>, m: nat) {
    Binary(codes) && Bounded(Lengths(codes), m)
  }

  lemma AfterWords(codes: seq<string>, b: char, m: nat)
    requires Words(codes, m) && m > 0
    ensures Words(After(codes, b), m - 1)
  {
    forall c | c in After(codes, b) ensures |c| <= m - 1 && IsBinary(c) {
      var full := [b] + c;
      var k :| 0 <= k < |codes| && codes[k] == full;
      assert Lengths(codes)[k] <= m;
      assert forall k :: 0 <= k < |c| ==> c[k] == full[k + 1];
    }
    LengthsBounded(After(codes, b), m - 1);
  }

  lemma FirstLength(codes: seq<string>)
    requires codes != []
    ensures Lengths(codes)[0] == |codes[0]| && Lengths(codes)[1..] == Lengths(codes[1..])
  {
  }

  lemma {:induction false} KraftSplits(codes: seq<string>, m: nat)
    requires Words(codes, m) && m > 0 && "" !in codes
    ensures Words(After(codes, '0'), m - 1) && Words(After(codes, '1'), m - 1)
    ensures Kraft(Lengths(codes), m) ==
            Kraft(Lengths(After(codes, '0')), m - 1) + Kraft(Lengths(After(codes, '1')), m - 1)
  {
    AfterWords(codes, '0', m);
    AfterWords(codes, '1', m);
    if codes != [] {
      var rest := codes[1..];
      FirstLength(codes);
      KraftSplits(rest, m);
      assert IsBinary(codes[0]);
      var b := codes[0][0];
      assert After(codes, b) == [codes[0][1..]] + After(rest, b);
      FirstLength(After(codes, b));
    }
  }

  /** Kraft's inequality for prefix-free codes. */
  lemma {:induction false} PrefixFreeFeasible(codes: seq<string>, m: nat)
    requires PrefixFree(codes) && Words(codes, m)
    ensures Feasible(Lengths(codes), m)
    decreases m
  {
    assert codes != [] ==> Lengths(codes)[0] == |codes[0]|;
    if "" in codes {
      SingleEmpty(codes);
      assert Lengths(codes) == [0];
    } else if m > 0 {
      KraftSplits(codes, m);
      AfterPrefixFree(codes, '0');
      AfterPrefixFree(codes, '1');
      PrefixFreeFeasible(After(codes, '0'), m - 1);
      PrefixFreeFeasible(After(codes, '1'), m - 1);
    }
  }

  lemma SingleEmpty(codes: seq<string>)
    requires PrefixFree(codes) && "" in codes
    ensures codes == [""]
  {
    assert codes == [codes[0]] + codes[1..];
    assert |codes| > 1 ==> codes[1..][0] in codes[1..];
    forall c | c in codes[1..] ensures c != "" && codes[0] != "" {
      assert !(codes[0] <= c) && !(c <= codes[0]);
    }
    assert codes[0] == "";
  }
}
