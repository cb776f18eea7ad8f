/**
 * Name matching for join applications: the two-row edit distance and the
 * similarity score built on it. Strings are sequences of code units; name
 * normalisation happens before and is not modelled.
 */
module EditDistance {
  import opened Common

  // ----------------------------------------------------------- specification

  function Init(s: string): string
    requires s != []
  {
    s[..|s| - 1]
  }

  function Last(s: string): char
    requires s != []
  {
    s[|s| - 1]
  }

  function Min3(x: int, y: int, z: int): int { Min(Min(x, y), z) }

  function Mismatch(a: string, b: string): nat
    requires a != [] && b != []
  {
    if Last(a) == Last(b) then 0 else 1
  }

  /** The recurrence the table is filled by, on whole strings. */
  function Dist(a: string, b: string): nat
    decreases |a| + |b|
  {
    if a == [] then |b|
    else if b == [] then |a|
    else Min3(Dist(Init(a), b) + 1, Dist(a, Init(b)) + 1, Dist(Init(a), Init(b)) + Mismatch(a, b))
  }

  /** One insertion, deletion or substitution of a single code unit, anywhere. */
  ghost predicate SingleEdit(a: string, b: string) {
    exists p: string, x: string, y: string, q: string ::
      a == p + x + q && b == p + y + q && |x| <= 1 && |y| <= 1
  }

  /** `chain` leads from `a` to `b` by single edits. */
  ghost predicate EditChain(chain: seq<string>, a: string, b: string) {
    && chain != [] && chain[0] == a && chain[|chain| - 1] == b
    && forall i :: 0 <= i < |chain| - 1 ==> SingleEdit(chain[i], chain[i + 1])
  }

  // ------------------------------------------------------------- metric laws

  lemma {:induction false} DistIsSymmetric(a: string, b: string)
    ensures Dist(a, b) == Dist(b, a)
    decreases |a| + |b|
  {
    if a != [] && b != [] {
      DistIsSymmetric(Init(a), b);
      DistIsSymmetric(a, Init(b));
      DistIsSymmetric(Init(a), Init(b));
    }
  }

  lemma {:induction false} DistToSelf(a: string)
    ensures Dist(a, a) == 0
  {
    if a != [] { DistToSelf(Init(a)); }
  }

  lemma {:induction false} ZeroOnlyOnEqual(a: string, b: string)
    requires Dist(a, b) == 0
    ensures a == b
    decreases |a| + |b|
  {
    if a != [] && b != [] {
      ZeroOnlyOnEqual(Init(a), Init(b));
      assert a == Init(a) + [Last(a)] && b == Init(b) + [Last(b)];
    }
  }

  /** Dropping or adding a last code unit costs one at most. */
  lemma NearByOne(a: string, b: string)
    requires a != []
    ensures Dist(a, b) <= Dist(Init(a), b) + 1
    ensures Dist(b, a) <= Dist(b, Init(a)) + 1
  {
    DistIsSymmetric(a, b);
    DistIsSymmetric(Init(a), b);
  }

  lemma {:induction false} TriangleInequality(a: string, b: string, c: string)
    ensures Dist(a, c) <= Dist(a, b) + Dist(b, c)
    decreases |a| + |b| + |c|
  {
    if a == [] {
      LengthGap(b, c);
    } else if c == [] {
      LengthGap(b, a);
      DistIsSymmetric(a, b);
    } else if b == [] {
      LengthBound(a, c);
    } else if Dist(a, b) == Dist(Init(a), b) + 1 {
      TriangleInequality(Init(a), b, c);
    } else if Dist(b, c) == Dist(b, Init(c)) + 1 {
      TriangleInequality(a, b, Init(c));
    } else if Dist(a, b) == Dist(a, Init(b)) + 1 {
      if Dist(b, c) == Dist(Init(b), c) + 1 {
        TriangleInequality(a, Init(b), c);
      } else {
        TriangleInequality(a, Init(b), Init(c));
      }
    } else if Dist(b, c) == Dist(Init(b), c) + 1 {
      TriangleInequality(Init(a), Init(b), c);
    } else {
      TriangleInequality(Init(a), Init(b), Init(c));
    }
  }

  /** The distance is at least the difference in length. */
  lemma {:induction false} LengthGap(a: string, b: string)
    ensures |b| <= |a| + Dist(a, b)
    decreases |a| + |b|
  {
    if a != [] && b != [] {
      LengthGap(Init(a), b);
      LengthGap(a, Init(b));
      LengthGap(Init(a), Init(b));
    }
  }

  /** The distance is at most the longer length. */
  lemma {:induction false} LengthBound(a: string, b: string)
    ensures Dist(a, b) <= Max(|a|, |b|)
    decreases |a| + |b|
  {
    if a != [] && b != [] { LengthBound(Init(a), Init(b)); }
  }

  // ------------------------------------------------ least number of edits

  lemma {:induction false} CommonTail(a: string, b: string, q: string)
    ensures Dist(a + q, b + q) <= Dist(a, b)
    decreases |q|
  {
    if q == [] {
      assert a + q == a && b + q == b;
    } else {
      CommonTail(a, b, Init(q));
      assert Init(a + q) == a + Init(q) && Init(b + q) == b + Init(q);
    }
  }

  lemma SingleEditIsNear(a: string, b: string)
    requires SingleEdit(a, b)
    ensures Dist(a, b) <= 1
  {
    var p: string, x: string, y: string, q: string :|
      a == p + x + q && b == p + y + q && |x| <= 1 && |y| <= 1;
    CommonTail(p + x, p + y, q);
    OneUnitApart(p, x, y);
  }

  lemma OneUnitApart(p: string, x: string, y: string)
    requires |x| <= 1 && |y| <= 1
    ensures Dist(p + x, p + y) <= 1
  {
    if x == [] {
      assert p + x == p;
      NearItself(p, y);
      DistIsSymmetric(p + y, p);
    } else if y == [] {
      assert p + y == p;
      NearItself(p, x);
    } else {
      assert Init(p + x) == p && Init(p + y) == p;
      DistToSelf(p);
      hide Init, Last;
      assert Dist(p + x, p + y) <= Dist(p, p) + Mismatch(p + x, p + y);
    }
  }

  lemma NearItself(p: string, x: string)
    requires |x| <= 1
    ensures Dist(p + x, p) <= 1
  {
    DistToSelf(p);
    if x == [] {
      assert p + x == p;
    } else {
      assert Init(p + x) == p;
      NearByOne(p + x, p);
    }
  }

  /** No chain of single edits is shorter than the distance. */
  lemma {:induction false} ChainsAreNoShorter(chain: seq<string>, a: string, b: string)
    requires EditChain(chain, a, b)
    ensures Dist(a, b) <= |chain| - 1
    decreases |chain|
  {
    if |chain| == 1 {
      DistToSelf(a);
    } else {
      var rest := chain[1..];
      forall i | 0 <= i < |rest| - 1 ensures SingleEdit(rest[i], rest[i + 1]) {
        assert SingleEdit(chain[i + 1], chain[i + 2]);
      }
      ChainsAreNoShorter(rest, chain[1], b);
      assert SingleEdit(chain[0], chain[1]);
      SingleEditIsNear(a, chain[1]);
      TriangleInequality(a, chain[1], b);
    }
  }

  lemma EditStaysWithTail(a: string, b: string, q: string)
    requires SingleEdit(a, b)
    ensures SingleEdit(a + q, b + q)
  {
    var p: string, x: string, y: string, r: string :|
      a == p + x + r && b == p + y + r && |x| <= 1 && |y| <= 1;
    assert a + q == p + x + (r + q) && b + q == p + y + (r + q);
  }

  lemma LastEdit(p: string, x: string, y: string)
    requires |x| <= 1 && |y| <= 1
    ensures SingleEdit(p + x, p + y)
  {
    assert p + x == p + x + [] && p + y == p + y + [];
  }

  lemma ExtendChain(chain: seq<string>, a: string, m: string, q: string, b: string)
    returns (longer: seq<string>)
    requires EditChain(chain, a, m) && SingleEdit(m + q, b)
    ensures EditChain(longer, a + q, b) && |longer| == |chain| + 1
  {
    var moved := ChainWithTail(chain, a, m, q);
    longer := moved + [b];
    forall i | 0 <= i < |longer| - 1 ensures SingleEdit(longer[i], longer[i + 1]) {
      if i < |chain| - 1 {
        assert longer[i] == chain[i] + q && longer[i + 1] == chain[i + 1] + q;
      }
    }
  }

  lemma ChainWithTail(chain: seq<string>, a: string, b: string, q: string)
    returns (longer: seq<string>)
    requires EditChain(chain, a, b)
    ensures EditChain(longer, a + q, b + q) && |longer| == |chain|
    ensures forall i :: 0 <= i < |chain| ==> longer[i] == chain[i] + q
  {
    longer := seq(|chain|, i requires 0 <= i < |chain| => chain[i] + q);
    forall i | 0 <= i < |longer| - 1 ensures SingleEdit(longer[i], longer[i + 1]) {
      EditStaysWithTail(chain[i], chain[i + 1], q);
    }
  }

  lemma TrivialChain(a: string) returns (chain: seq<string>)
    ensures EditChain(chain, a, a) && |chain| == 1
  {
    chain := [a];
  }

  /** Some chain is exactly as long as the distance. */
  lemma {:induction false} ShortestChain(a: string, b: string) returns (chain: seq<string>)
    ensures EditChain(chain, a, b) && |chain| == Dist(a, b) + 1
    decreases |a| + |b|
  {
    hide SingleEdit, EditChain;
    if a == [] && b == [] {
      chain := TrivialChain(a);
    } else if b != [] && (a == [] || Dist(a, b) == Dist(a, Init(b)) + 1) {
      var part := ShortestChain(a, Init(b));
      LastEdit(Init(b), [], [Last(b)]);
      assert Init(b) + [] == Init(b) && a + [] == a && Init(b) + [Last(b)] == b;
      chain := ExtendChain(part, a, Init(b), [], b);
    } else if b == [] || Dist(a, b) == Dist(Init(a), b) + 1 {
      var part := ShortestChain(Init(a), b);
      LastEdit(b, [Last(a)], []);
      assert b + [] == b && Init(a) + [Last(a)] == a;
      chain := ExtendChain(part, Init(a), b, [Last(a)], b);
    } else {
      var part := ShortestChain(Init(a), Init(b));
      chain := ChangeLast(part, a, b);
    }
  }

  /** A chain between the shorter strings, with the last units kept or exchanged. */
  lemma ChangeLast(part: seq<string>, a: string, b: string) returns (chain: seq<string>)
    requires a != [] && b != [] && EditChain(part, Init(a), Init(b))
    ensures EditChain(chain, a, b) && |chain| == |part| + Mismatch(a, b)
  {
    hide SingleEdit, EditChain;
    assert Init(a) + [Last(a)] == a && Init(b) + [Last(b)] == b;
    if Last(a) == Last(b) {
      chain := ChainWithTail(part, Init(a), Init(b), [Last(a)]);
    } else {
      LastEdit(Init(b), [Last(a)], [Last(b)]);
      chain := ExtendChain(part, Init(a), Init(b), [Last(a)], b);
    }
  }

  // -------------------------------------------------------------- the program

  ghost predicate LeastEdits(a: string, b: string, d: nat) {
    && (exists chain :: EditChain(chain, a, b) && |chain| == d + 1)
    && (forall chain :: EditChain(chain, a, b) ==> d + 1 <= |chain|)
  }

  lemma DistIsLeastEdits(a: string, b: string)
    ensures LeastEdits(a, b, Dist(a, b))
  {
    var shortest := ShortestChain(a, b);
    forall chain | EditChain(chain, a, b) ensures Dist(a, b) + 1 <= |chain| {
      ChainsAreNoShorter(chain, a, b);
    }
  }

  /** `row` holds the distances from `a` to the first `|row|` prefixes of `b`. */
  ghost predicate RowFor(row: seq<int>, a: string, b: string) {
    |row| <= |b| + 1 && forall j :: 0 <= j < |row| ==> row[j] == Dist(a, b[..j])
  }

  lemma NextCell(prev: seq<int>, cur: seq<int>, a: string, b: string, i: nat, j: nat)
    requires 1 <= i <= |a| && 1 <= j <= |b| && |prev| == |b| + 1 && |cur| == j
    requires RowFor(prev, a[..i - 1], b) && RowFor(cur, a[..i], b)
    ensures RowFor(cur + [Min3(prev[j] + 1, cur[j - 1] + 1, prev[j - 1] + if a[i - 1] == b[j - 1] then 0 else 1)],
            a[..i], b)
  {
    assert Init(a[..i]) == a[..i - 1] && Init(b[..j]) == b[..j - 1];
    assert Dist(a[..i], b[..j]) ==
      Min3(prev[j] + 1, cur[j - 1] + 1, prev[j - 1] + if a[i - 1] == b[j - 1] then 0 else 1);
  }

  /** The two-row table returns the least number of single edits from `a` to `b`. */
  method Levenshtein(a: string, b: string) returns (d: nat)
    ensures d == Dist(a, b) && LeastEdits(a, b, d)
  {
    DistIsLeastEdits(a, b);
    if a == b {
      DistToSelf(a);
      return 0;
    }
    if a == [] {
      return |b|;
    }
    if b == [] {
      return |a|;
    }
    var prev := seq(|b| + 1, i => i);
    for i := 1 to |a| + 1
      invariant |prev| == |b| + 1 && RowFor(prev, a[..i - 1], b)
    {
      var cur := [i];
      for j := 1 to |b| + 1
        invariant |cur| == j && RowFor(cur, a[..i], b)
      {
        NextCell(prev, cur, a, b, i, j);
        cur := cur + [Min3(prev[j] + 1, cur[j - 1] + 1, prev[j - 1] + if a[i - 1] == b[j - 1] then 0 else 1)];
      }
      prev := cur;
    }
    assert a[..|a|] == a && b[..|b|] == b;
    return prev[|b|];
  }

  // --------------------------------------------------------------- similarity

  /** Cuts at every space, as a split on " " does. */
  function Words(s: string): seq<string> {
    if s == [] then [[]]
    else
      var rest := Words(s[1..]);
      if s[0] == ' ' then [[]] + rest
      else if rest == [] then [[s[0]]]
      else [[s[0]] + rest[0]] + rest[1..]
  }

  /** The words with one space between each two. */
  function Spaced(ws: seq<string>): string
    requires ws != []
  {
    if |ws| == 1 then ws[0] else ws[0] + " " + Spaced(ws[1..])
  }

  ghost predicate SpaceFree(ws: seq<string>) { forall w :: w in ws ==> ' ' !in w }

  /** The words hold no space and make up the text again, */
  lemma {:induction false} WordsMakeText(s: string)
    ensures Words(s) != [] && Spaced(Words(s)) == s && SpaceFree(Words(s))
  {
    if s != [] {
      var rest := Words(s[1..]);
      WordsMakeText(s[1..]);
      assert s == [s[0]] + s[1..];
      if s[0] == ' ' {
        assert ([[]] + rest)[1..] == rest;
      } else if |rest| > 1 {
        var ws := [[s[0]] + rest[0]] + rest[1..];
        assert ws[1..] == rest[1..];
        assert [s[0]] + (rest[0] + " " + Spaced(rest[1..])) == [s[0]] + rest[0] + " " + Spaced(rest[1..]);
      }
    }
  }

  /** and no other words do. */
  lemma {:induction false} TextMakesWords(ws: seq<string>)
    requires ws != [] && SpaceFree(ws)
    ensures Words(Spaced(ws)) == ws
    decreases |ws|, |ws[0]|
  {
    assert ws[0] in ws;
    var s := Spaced(ws);
    if ws[0] != [] {
      var shorter := [ws[0][1..]] + ws[1..];
      assert shorter[1..] == ws[1..] && ws == [ws[0]] + ws[1..];
      forall w | w in shorter ensures ' ' !in w { assert w == ws[0][1..] || w in ws; }
      TextMakesWords(shorter);
      assert s[0] == ws[0][0] && s[1..] == Spaced(shorter);
      assert [ws[0][0]] + ws[0][1..] == ws[0];
    } else if |ws| > 1 {
      TextMakesWords(ws[1..]);
      assert s == " " + Spaced(ws[1..]) && s[1..] == Spaced(ws[1..]);
      assert ws == [[]] + ws[1..];
    }
  }

  function WordSet(s: string): set<string> { set w | w in Words(s) }

  lemma SomeWordInSet(s: string)
    ensures |WordSet(s)| > 0
  {
    WordsMakeText(s);
    assert Words(s)[0] in WordSet(s);
  }

  function MaxReal(x: real, y: real): real { if x < y then y else x }

  /** Similarity of two normalised names. */
  method NameSimilarity(x: string, y: string) returns (r: real)
    ensures 0.0 <= r <= 1.0
    ensures r == 1.0 <==> x == y && x != []
    ensures r == Similarity(x, y)
    ensures x != [] && y != [] && x != y ==> LargerScore(r, x, y)
  {
    SimilarityLaws(x, y);
    if x != [] && y != [] && x != y { SimilarityIsLarger(x, y); }
    hide LargerScore, Dist, Words, LeastEdits;
    if x == [] || y == [] {
      return 0.0;
    }
    if x == y {
      return 1.0;
    }
    var d := Levenshtein(x, y);
    SomeWordInSet(x);
    var xs, ys := WordSet(x), WordSet(y);
    var direct := 1.0 - d as real / Max(|x|, |y|) as real;
    var tokens := |xs * ys| as real / Max(|xs|, |ys|) as real;
    return MaxReal(direct, tokens * 0.9);
  }

  predicate IsLarger(r: real, a: real, b: real) { r >= a && r >= b && (r == a || r == b) }

  /** The part of the longer name that `d` edits leave alone. */
  function EditScore(x: string, y: string, d: nat): real
    requires x != []
  {
    1.0 - d as real / Max(|x|, |y|) as real
  }

  /** Nine tenths of the part of the words that both names have. */
  function WordScore(x: string, y: string): real {
    SomeWordInSet(x);
    |set w | w in Words(x) && w in Words(y)| as real / Max(|WordSet(x)|, |WordSet(y)|) as real * 0.9
  }

  /** `r` is the larger of the two scores, `d` being the least number of edits. */
  ghost predicate LargerScore(r: real, x: string, y: string)
    requires x != []
  {
    forall d: nat :: LeastEdits(x, y, d) ==> IsLarger(r, EditScore(x, y, d), WordScore(x, y))
  }

  lemma LeastIsUnique(x: string, y: string, d: nat, e: nat)
    requires LeastEdits(x, y, d) && LeastEdits(x, y, e)
    ensures d == e
  {
    var c :| EditChain(c, x, y) && |c| == d + 1;
    var b :| EditChain(b, x, y) && |b| == e + 1;
    hide EditChain;
  }

  /** The similarity of two different names, by edits and by words. */
  lemma SimilarityIsLarger(x: string, y: string)
    requires x != [] && y != [] && x != y
    ensures LargerScore(Similarity(x, y), x, y)
  {
    DistIsLeastEdits(x, y);
    ScoresAgree(x, y);
    hide LeastEdits, Dist, WordScore, EditScore, Similarity;
    forall d: nat | LeastEdits(x, y, d) ensures IsLarger(Similarity(x, y), EditScore(x, y, d), WordScore(x, y)) {
      LeastIsUnique(x, y, d, Dist(x, y));
    }
  }

  lemma ScoresAgree(x: string, y: string)
    requires x != [] && y != [] && x != y
    ensures Similarity(x, y) == MaxReal(EditScore(x, y, Dist(x, y)), WordScore(x, y))
  {
    assert WordSet(x) * WordSet(y) == set w | w in Words(x) && w in Words(y);
    hide Dist, Words;
  }

  function Similarity(x: string, y: string): real {
    if x == [] || y == [] then 0.0
    else if x == y then 1.0
    else
      SomeWordInSet(x);
      MaxReal(1.0 - Dist(x, y) as real / Max(|x|, |y|) as real,
              |WordSet(x) * WordSet(y)| as real / Max(|WordSet(x)|, |WordSet(y)|) as real * 0.9)
  }

  lemma Share(part: nat, whole: nat)
    requires part <= whole && whole > 0
    ensures 0.0 <= part as real / whole as real <= 1.0
    ensures part > 0 ==> part as real / whole as real > 0.0
  {
  }

  /** The score is symmetric, lies between 0 and 1, and is 1 on equal non-empty names only. */
  lemma SimilarityLaws(x: string, y: string)
    ensures Similarity(x, y) == Similarity(y, x)
    ensures 0.0 <= Similarity(x, y) <= 1.0
    ensures Similarity(x, y) == 1.0 <==> x == y && x != []
  {
    hide Dist, WordSet, Words;
    if x != [] && y != [] && x != y {
      DistIsSymmetric(x, y);
      LengthBound(x, y);
      if Dist(x, y) == 0 { ZeroOnlyOnEqual(x, y); }
      Share(Dist(x, y), Max(|x|, |y|));
      SomeWordInSet(x);
      assert WordSet(x) * WordSet(y) == WordSet(y) * WordSet(x);
      assert |WordSet(x) * WordSet(y)| <= |WordSet(x)| by { SubsetSize(WordSet(x) * WordSet(y), WordSet(x)); }
      Share(|WordSet(x) * WordSet(y)|, Max(|WordSet(x)|, |WordSet(y)|));
    }
  }

  lemma {:induction false} SubsetSize(s: set<string>, t: set<string>)
    requires s <= t
    ensures |s| <= |t|
  {
    if s != {} {
      var w :| w in s;
      SubsetSize(s - {w}, t - {w});
    }
  }
}
