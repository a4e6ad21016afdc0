/** The 90th-percentile statistic of the simulation.

    `nintiethPercentile` copies its array, sorts the copy with JavaScript's
    default comparator and returns the element at index
    floor(length * 0.9). The default comparator converts both elements to
    strings with `String(e)` and compares the strings code unit by code unit,
    so the array is ordered as text: "10" comes before "9", and "-1" (the
    record of a milestone that never fired) comes before every non-negative
    number.
 */
module Statistics {

  datatype Option<T> = None | Some(value: T)

  // ---------------------------------------------------------------------
  // String(n) for an integer n
  // ---------------------------------------------------------------------

  predicate IsDigit(c: char) {
    '0' <= c <= '9'
  }

  function DigitChar(d: int): (c: char)
    requires 0 <= d <= 9
    ensures IsDigit(c)
  {
    (('0' as int) + d) as char
  }

  function DigitValue(c: char): int {
    (c as int) - ('0' as int)
  }

  /** The decimal digits of n, most significant first, with no leading zero
      (except the single digit of 0). */
  function Digits(n: nat): (s: string)
    ensures 1 <= |s|
    ensures n >= 10 ==> 2 <= |s|
    ensures forall k :: 0 <= k < |s| ==> IsDigit(s[k])
    ensures n == 0 || s[0] != '0'
  {
    if n < 10 then [DigitChar(n)] else Digits(n / 10) + [DigitChar(n % 10)]
  }

  /** `String(n)`: a minus sign for a negative number, then the digits. */
  function DecimalString(n: int): string {
    if n < 0 then "-" + Digits(-n) else Digits(n)
  }

  /** The number a string of decimal digits denotes. */
  function DigitsValue(s: string): int {
    if s == [] then 0 else DigitsValue(s[..|s| - 1]) * 10 + DigitValue(s[|s| - 1])
  }

  /** Reading a decimal string back: an optional minus sign, then digits. */
  function ParseDecimal(s: string): int {
    if |s| > 0 && s[0] == '-' then -DigitsValue(s[1..]) else DigitsValue(s)
  }

  lemma {:induction false} DigitsRoundTrip(n: nat)
    ensures DigitsValue(Digits(n)) == n
  {
    if n >= 10 {
      DigitsRoundTrip(n / 10);
      var s := Digits(n);
      assert s[..|s| - 1] == Digits(n / 10);
    }
  }

  /** Reading back `String(n)` gives n. */
  lemma DecimalRoundTrip(n: int)
    ensures ParseDecimal(DecimalString(n)) == n
  {
    if n < 0 {
      DigitsRoundTrip(-n);
      assert DecimalString(n)[1..] == Digits(-n);
    } else {
      DigitsRoundTrip(n);
      assert IsDigit(Digits(n)[0]);
    }
  }

  /** Different numbers have different strings, so sorting by string never
      ties two different numbers. */
  lemma DecimalStringInjective(a: int, b: int)
    requires DecimalString(a) == DecimalString(b)
    ensures a == b
  {
    DecimalRoundTrip(a);
    DecimalRoundTrip(b);
  }

  // ---------------------------------------------------------------------
  // JavaScript string comparison
  // ---------------------------------------------------------------------

  /** `a < b` on strings: the first differing code unit decides, and a
      proper prefix comes first. */
  predicate StrLess(a: string, b: string) {
    if |a| == 0 then |b| > 0
    else if |b| == 0 then false
    else if a[0] != b[0] then a[0] < b[0]
    else StrLess(a[1..], b[1..])
  }

  lemma {:induction false} StrLessIrreflexive(a: string)
    ensures !StrLess(a, a)
  {
    if |a| > 0 {
      StrLessIrreflexive(a[1..]);
    }
  }

  lemma {:induction false} StrLessAsymmetric(a: string, b: string)
    requires StrLess(a, b)
    ensures !StrLess(b, a)
  {
    if |a| > 0 && |b| > 0 && a[0] == b[0] {
      StrLessAsymmetric(a[1..], b[1..]);
    }
  }

  lemma {:induction false} StrLessTransitive(a: string, b: string, c: string)
    requires StrLess(a, b) && StrLess(b, c)
    ensures StrLess(a, c)
  {
    if |a| > 0 && a[0] == b[0] && b[0] == c[0] {
      StrLessTransitive(a[1..], b[1..], c[1..]);
    }
  }

  lemma {:induction false} StrLessTotal(a: string, b: string)
    requires a != b
    ensures StrLess(a, b) || StrLess(b, a)
  {
    if |a| > 0 && |b| > 0 && a[0] == b[0] {
      assert a == [a[0]] + a[1..] && b == [b[0]] + b[1..];
      StrLessTotal(a[1..], b[1..]);
    }
  }

  // ---------------------------------------------------------------------
  // The order of the default sort on numbers
  // ---------------------------------------------------------------------

  /** x sorts strictly before y under the default comparator. */
  predicate Before(x: int, y: int) {
    StrLess(DecimalString(x), DecimalString(y))
  }

  /** x sorts before y or is y. */
  predicate Leq(x: int, y: int) {
    x == y || Before(x, y)
  }

  lemma BeforeIrreflexive(x: int)
    ensures !Before(x, x)
  {
    StrLessIrreflexive(DecimalString(x));
  }

  lemma BeforeAsymmetric(x: int, y: int)
    requires Before(x, y)
    ensures !Before(y, x)
  {
    StrLessAsymmetric(DecimalString(x), DecimalString(y));
  }

  lemma BeforeTotal(x: int, y: int)
    requires x != y
    ensures Before(x, y) || Before(y, x)
  {
    if DecimalString(x) == DecimalString(y) {
      DecimalStringInjective(x, y);
    }
    StrLessTotal(DecimalString(x), DecimalString(y));
  }

  lemma LeqTransitive(x: int, y: int, z: int)
    requires Leq(x, y) && Leq(y, z)
    ensures Leq(x, z)
  {
    if x != y && y != z {
      StrLessTransitive(DecimalString(x), DecimalString(y), DecimalString(z));
    }
  }

  /** A negative number sorts before every non-negative one, since '-' comes
      before every digit. */
  lemma NegativeFirst(x: int, y: int)
    requires x < 0 <= y
    ensures Before(x, y)
  {
    assert DecimalString(x)[0] == '-';
    assert IsDigit(DecimalString(y)[0]);
  }

  /** The text order is not the numeric order: 10 sorts before 9. */
  lemma TenBeforeNine()
    ensures Before(10, 9)
  {
    assert Digits(10) == Digits(1) + [DigitChar(0)] == "10";
    assert DecimalString(9) == "9";
  }

  // ---------------------------------------------------------------------
  // Sorting
  // ---------------------------------------------------------------------

  /** Every element sorts before or equal to every later one. */
  predicate Sorted(s: seq<int>) {
    forall i, j :: 0 <= i < j < |s| ==> Leq(s[i], s[j])
  }

  /** Prepending an element that sorts before or equal to every element keeps
      a sequence sorted. */
  lemma ConsSorted(h: int, t: seq<int>)
    requires Sorted(t)
    requires forall y :: y in t ==> Leq(h, y)
    ensures Sorted([h] + t)
  {
    var s := [h] + t;
    forall i, j | 0 <= i < j < |s| ensures Leq(s[i], s[j]) {
      if i == 0 {
        assert s[j] == t[j - 1] && s[j] in t;
      } else {
        assert s[i] == t[i - 1] && s[j] == t[j - 1];
      }
    }
  }

  /** An element at or before the head of a sorted sequence is at or before
      all of it. */
  lemma BelowHead(x: int, s: seq<int>)
    requires Sorted(s) && s != [] && Leq(x, s[0])
    ensures forall y :: y in s ==> Leq(x, y)
  {
    forall y | y in s ensures Leq(x, y) {
      var j :| 0 <= j < |s| && s[j] == y;
      if j > 0 {
        LeqTransitive(x, s[0], y);
      }
    }
  }

  /** When x sorts after the head of a sorted sequence, the head is at or
      before every element of the tail with x added. */
  lemma HeadBelowRest(x: int, s: seq<int>, t: seq<int>)
    requires Sorted(s) && s != [] && !Leq(x, s[0])
    requires multiset(t) == multiset(s[1..]) + multiset{x}
    ensures forall y :: y in t ==> Leq(s[0], y)
  {
    BeforeTotal(x, s[0]);
    forall y | y in t ensures Leq(s[0], y) {
      assert y in multiset(t);
      if y != x {
        assert y in multiset(s[1..]);
        var j :| 0 <= j < |s[1..]| && s[1..][j] == y;
        assert s[j + 1] == y;
      }
    }
  }

  /** Insert x into a sorted sequence before the first element it does not
      sort after. */
  function Insert(x: int, s: seq<int>): (r: seq<int>)
    requires Sorted(s)
    ensures multiset(r) == multiset(s) + multiset{x}
    ensures Sorted(r)
  {
    if s == [] then [x]
    else if Leq(x, s[0]) then
      BelowHead(x, s);
      ConsSorted(x, s);
      [x] + s
    else
      var t := Insert(x, s[1..]);
      HeadBelowRest(x, s, t);
      ConsSorted(s[0], t);
      assert s == [s[0]] + s[1..];
      [s[0]] + t
  }

  /** `[...array].sort()`: the copy in text order. */
  function SortByString(a: seq<int>): (r: seq<int>)
    ensures multiset(r) == multiset(a)
    ensures Sorted(r)
  {
    if a == [] then []
    else
      assert a == [a[0]] + a[1..];
      Insert(a[0], SortByString(a[1..]))
  }

  /** Two sorted permutations of one array start with the same element:
      each head sorts at or before the other. */
  lemma SortedHeads(s: seq<int>, t: seq<int>)
    requires Sorted(s) && Sorted(t)
    requires multiset(s) == multiset(t) && s != []
    ensures t != [] && s[0] == t[0]
  {
    assert s[0] in multiset(t) && t[0] in multiset(s);
    var i :| 0 <= i < |t| && t[i] == s[0];
    var j :| 0 <= j < |s| && s[j] == t[0];
    assert Leq(t[0], t[i]) && Leq(s[0], s[j]);
    if s[0] != t[0] {
      BeforeAsymmetric(s[0], t[0]);
    }
  }

  lemma TailSorted(s: seq<int>)
    requires Sorted(s) && s != []
    ensures Sorted(s[1..])
  {
    forall i, j | 0 <= i < j < |s[1..]| ensures Leq(s[1..][i], s[1..][j]) {
      assert s[1..][i] == s[i + 1] && s[1..][j] == s[j + 1];
    }
  }

  /** Whatever algorithm the engine uses, a sorted permutation is unique: the
      order is total on distinct numbers, so any two sorted permutations of
      the same array are equal. */
  lemma {:induction false} SortedUnique(s: seq<int>, t: seq<int>)
    requires Sorted(s) && Sorted(t)
    requires multiset(s) == multiset(t)
    ensures s == t
  {
    if s != [] {
      SortedHeads(s, t);
      assert s == [s[0]] + s[1..] && t == [t[0]] + t[1..];
      assert multiset(s) == multiset{s[0]} + multiset(s[1..]);
      assert multiset(t) == multiset{t[0]} + multiset(t[1..]);
      assert multiset(s[1..]) == multiset(s) - multiset{s[0]} == multiset(t[1..]);
      TailSorted(s);
      TailSorted(t);
      SortedUnique(s[1..], t[1..]);
    } else {
      assert |t| == |multiset(t)| == 0;
    }
  }

  // ---------------------------------------------------------------------
  // Ranks and the percentile
  // ---------------------------------------------------------------------

  /** How many elements of `a` sort strictly before v. */
  function CountBelow(a: seq<int>, v: int): (n: nat)
    ensures n <= |a|
  {
    if a == [] then 0 else (if Before(a[0], v) then 1 else 0) + CountBelow(a[1..], v)
  }

  /** How many elements of `a` sort before v or equal it. */
  function CountUpTo(a: seq<int>, v: int): (n: nat)
    ensures n <= |a|
  {
    if a == [] then 0 else (if Leq(a[0], v) then 1 else 0) + CountUpTo(a[1..], v)
  }

  /** Inserting x adds x's contribution to each count. */
  lemma {:induction false} InsertCounts(x: int, s: seq<int>, v: int)
    requires Sorted(s)
    ensures CountBelow(Insert(x, s), v) == CountBelow(s, v) + (if Before(x, v) then 1 else 0)
    ensures CountUpTo(Insert(x, s), v) == CountUpTo(s, v) + (if Leq(x, v) then 1 else 0)
  {
    var r := Insert(x, s);
    if s == [] {
      assert r[1..] == [];
    } else if Leq(x, s[0]) {
      assert r[1..] == s;
    } else {
      InsertCounts(x, s[1..], v);
      assert r[1..] == Insert(x, s[1..]);
    }
  }

  /** Sorting leaves both counts unchanged. */
  lemma {:induction false} SortCounts(a: seq<int>, v: int)
    ensures CountBelow(SortByString(a), v) == CountBelow(a, v)
    ensures CountUpTo(SortByString(a), v) == CountUpTo(a, v)
  {
    if a != [] {
      SortCounts(a[1..], v);
      InsertCounts(a[0], SortByString(a[1..]), v);
    }
  }

  /** In a sequence whose elements all sort at or after v, nothing sorts
      before v. */
  lemma {:induction false} NoneBelow(s: seq<int>, v: int)
    requires forall k :: 0 <= k < |s| ==> Leq(v, s[k])
    ensures CountBelow(s, v) == 0
  {
    if s != [] {
      if s[0] != v {
        BeforeAsymmetric(v, s[0]);
      } else {
        BeforeIrreflexive(v);
      }
      NoneBelow(s[1..], v);
    }
  }

  /** The element at index k of a sorted sequence has at most k elements
      before it and more than k at or before it. */
  lemma {:induction false} RankAt(s: seq<int>, k: nat)
    requires Sorted(s) && k < |s|
    ensures CountBelow(s, s[k]) <= k < CountUpTo(s, s[k])
  {
    var v := s[k];
    if k == 0 {
      NoneBelow(s, v);
    } else {
      TailSorted(s);
      assert s[1..][k - 1] == v;
      RankAt(s[1..], k - 1);
      assert Leq(s[0], v);
    }
  }

  /** An element sorting strictly before w is counted below w, and so is
      everything at or before it. */
  lemma {:induction false} CountsOrdered(a: seq<int>, v: int, w: int)
    requires Before(v, w)
    ensures CountUpTo(a, v) <= CountBelow(a, w)
  {
    if a != [] {
      if Leq(a[0], v) && a[0] != v {
        StrLessTransitive(DecimalString(a[0]), DecimalString(v), DecimalString(w));
      }
      CountsOrdered(a[1..], v, w);
    }
  }

  /** The index `Math.floor(length * 0.9)` as integer arithmetic. */
  function PercentileIndex(length: nat): (k: nat)
    ensures length > 0 ==> k < length
    ensures 10 * k <= 9 * length < 10 * k + 10
  {
    9 * length / 10
  }

  /** `nintiethPercentile(array)`: the element whose text-order rank covers
      index floor(0.9 * length), that is, at most that many elements sort
      strictly before it and more than that many sort at or before it. An
      empty array has no such element (the code reads `undefined`). */
  function NinetiethPercentile(a: seq<int>): (r: Option<int>)
    ensures r.None? <==> a == []
    ensures r.Some? ==> r.value in a
    ensures r.Some? ==>
      CountBelow(a, r.value) <= PercentileIndex(|a|) < CountUpTo(a, r.value)
  {
    if a == [] then None
    else
      var s := SortByString(a);
      var k := PercentileIndex(|a|);
      assert |s| == |multiset(s)| == |multiset(a)| == |a|;
      assert s[k] in multiset(a);
      RankAt(s, k);
      SortCounts(a, s[k]);
      Some(s[k])
  }

  /** At most one element has its rank covering a given index, so the
      contract of NinetiethPercentile determines its result. */
  lemma RankDetermines(a: seq<int>, k: nat, v: int, w: int)
    requires CountBelow(a, v) <= k < CountUpTo(a, v)
    requires CountBelow(a, w) <= k < CountUpTo(a, w)
    ensures v == w
  {
    if v != w {
      BeforeTotal(v, w);
      if Before(v, w) {
        CountsOrdered(a, v, w);
      } else {
        CountsOrdered(a, w, v);
      }
    }
  }

  /** The result is the element at index floor(0.9 * length) of the copy,
      however the copy was sorted: any sorted permutation gives it. */
  lemma PercentileOfAnySort(a: seq<int>, s: seq<int>)
    requires a != []
    requires Sorted(s) && multiset(s) == multiset(a)
    ensures |s| == |a|
    ensures NinetiethPercentile(a) == Some(s[PercentileIndex(|a|)])
  {
    assert |s| == |multiset(s)| == |multiset(a)| == |a|;
    SortedUnique(s, SortByString(a));
  }

  /** The percentile follows text order, not numeric order: for [2, 10] it
      is 2 (the copy sorts to [10, 2]), where numerically it would be 10. */
  lemma PercentileOfTwoAndTen()
    ensures NinetiethPercentile([2, 10]) == Some(2)
  {
    var a := [2, 10];
    var r := NinetiethPercentile(a);
    TenBeforeNine();
    assert DecimalString(2) == "2";
    assert Before(10, 2);
    BeforeIrreflexive(10);
    assert a[1..] == [10] && a[1..][1..] == [];
    assert CountUpTo(a, 10) == 1;
  }
}
