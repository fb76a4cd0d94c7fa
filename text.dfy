/** The string operations the bag builders and the mode table use: Python's
    `sep.join(parts)`, string ordering and `sorted`, `str.replace` of one
    character, and `"%d" % n`. */
module Text {

  // ---------------------------------------------------------------------------
  // Joining and splitting

  /** `sep.join(parts)`. */
  function Join(sep: string, parts: seq<string>): (r: string)
    ensures |parts| == 0 ==> r == ""
    ensures |parts| == 1 ==> r == parts[0]
  {
    if |parts| == 0 then ""
    else if |parts| == 1 then parts[0]
    else parts[0] + sep + Join(sep, parts[1..])
  }

  /** `s.split(c)`: the pieces of s between occurrences of c. */
  function Split(s: string, c: char): (r: seq<string>)
    ensures |r| >= 1
  {
    if |s| == 0 then [""]
    else
      var rest := Split(s[1..], c);
      if s[0] == c then [""] + rest else [[s[0]] + rest[0]] + rest[1..]
  }

  /** Splitting text that begins with a piece free of c. */
  lemma {:induction false} SplitPrefix(p: string, t: string, c: char)
    requires c !in p
    ensures Split(p + t, c) == [p + Split(t, c)[0]] + Split(t, c)[1..]
  {
    if |p| > 0 {
      SplitPrefix(p[1..], t, c);
      assert (p + t)[1..] == p[1..] + t;
      assert [p[0]] + (p[1..] + Split(t, c)[0]) == p + Split(t, c)[0];
    } else {
      assert p + t == t;
      var r := Split(t, c);
      assert p + r[0] == r[0];
      assert r == [r[0]] + r[1..];
    }
  }

  /** Joining with a single character is undone by splitting at it, provided
      no part contains that character: the key a bag builder forms from a
      list of labels determines the list. */
  lemma {:induction false} SplitJoin(parts: seq<string>, c: char)
    requires |parts| >= 1
    requires forall i :: 0 <= i < |parts| ==> c !in parts[i]
    ensures Split(Join([c], parts), c) == parts
  {
    if |parts| == 1 {
      SplitPrefix(parts[0], "", c);
      assert parts[0] + "" == parts[0];
    } else {
      var rest := Join([c], parts[1..]);
      SplitJoin(parts[1..], c);
      assert Join([c], parts) == parts[0] + ([c] + rest);
      SplitPrefix(parts[0], [c] + rest, c);
      assert ([c] + rest)[1..] == rest;
      assert Split([c] + rest, c) == [""] + parts[1..];
      assert parts[0] + "" == parts[0];
    }
  }

  /** SplitJoin, stated for every list of parts. */
  lemma JoinSplits(parts: seq<string>, c: char)
    ensures |parts| > 0 && (forall i :: 0 <= i < |parts| ==> c !in parts[i]) ==> Split(Join([c], parts), c) == parts
  {
    if |parts| > 0 && forall i :: 0 <= i < |parts| ==> c !in parts[i] {
      SplitJoin(parts, c);
    }
  }

  // ---------------------------------------------------------------------------
  // Ordering and sorting

  /** Python's `a <= b` on strings: lexicographic by character code, a proper
      prefix sorting first. */
  predicate Le(a: string, b: string)
  {
    |a| == 0 || (|b| > 0 && (a[0] < b[0] || (a[0] == b[0] && Le(a[1..], b[1..]))))
  }

  lemma {:induction false} LeReflexive(a: string)
    ensures Le(a, a)
  {
    if |a| > 0 {
      LeReflexive(a[1..]);
    }
  }

  lemma {:induction false} LeTotal(a: string, b: string)
    ensures Le(a, b) || Le(b, a)
  {
    if |a| > 0 && |b| > 0 && a[0] == b[0] {
      LeTotal(a[1..], b[1..]);
    }
  }

  lemma {:induction false} LeAntisymmetric(a: string, b: string)
    requires Le(a, b) && Le(b, a)
    ensures a == b
  {
    if |a| > 0 && |b| > 0 {
      LeAntisymmetric(a[1..], b[1..]);
      assert a == [a[0]] + a[1..] && b == [b[0]] + b[1..];
    }
  }

  lemma {:induction false} LeTransitive(a: string, b: string, c: string)
    requires Le(a, b) && Le(b, c)
    ensures Le(a, c)
  {
    if |a| > 0 && a[0] == b[0] && b[0] == c[0] {
      LeTransitive(a[1..], b[1..], c[1..]);
    }
  }

  predicate Sorted(s: seq<string>)
  {
    forall i, j :: 0 <= i < j < |s| ==> Le(s[i], s[j])
  }

  /** x inserted into the sorted s before the first element not below it. */
  function Insert(x: string, s: seq<string>): (r: seq<string>)
    requires Sorted(s)
    ensures Sorted(r)
    ensures multiset(r) == multiset(s) + multiset{x}
  {
    if |s| == 0 then [x]
    else if Le(x, s[0]) then
      InsertFront(x, s);
      [x] + s
    else
      LeTotal(x, s[0]);
      SortedTail(s);
      var r' := Insert(x, s[1..]);
      InsertBehind(x, s, r');
      [s[0]] + r'
  }

  lemma InsertFront(x: string, s: seq<string>)
    requires Sorted(s) && |s| > 0 && Le(x, s[0])
    ensures Sorted([x] + s)
  {
    forall j | 0 <= j < |s|
      ensures Le(x, s[j])
    {
      if j > 0 { LeTransitive(x, s[0], s[j]); }
    }
  }

  lemma InsertBehind(x: string, s: seq<string>, r': seq<string>)
    requires Sorted(s) && |s| > 0 && Le(s[0], x)
    requires Sorted(r') && multiset(r') == multiset(s[1..]) + multiset{x}
    ensures Sorted([s[0]] + r')
    ensures multiset([s[0]] + r') == multiset(s) + multiset{x}
  {
    assert s == [s[0]] + s[1..];
    forall j | 0 <= j < |r'|
      ensures Le(s[0], r'[j])
    {
      assert r'[j] in multiset(r');
      if r'[j] != x {
        assert r'[j] in multiset(s[1..]);
        var k :| 0 <= k < |s[1..]| && s[1..][k] == r'[j];
        assert s[k + 1] == r'[j];
      }
    }
  }

  /** Python's `sorted` on strings. */
  function Sort(s: seq<string>): (r: seq<string>)
    ensures Sorted(r)
    ensures multiset(r) == multiset(s)
  {
    if |s| == 0 then []
    else
      assert s == [s[0]] + s[1..];
      Insert(s[0], Sort(s[1..]))
  }

  /** The first element of a sorted sequence is below every element. */
  lemma SortedHeadLeast(s: seq<string>, y: string)
    requires Sorted(s) && y in multiset(s)
    ensures Le(s[0], y)
  {
    var i :| 0 <= i < |s| && s[i] == y;
    if i == 0 { LeReflexive(y); }
  }

  lemma SortedTail(s: seq<string>)
    requires Sorted(s) && |s| > 0
    ensures Sorted(s[1..])
    ensures multiset(s[1..]) == multiset(s) - multiset{s[0]}
  {
    assert s == [s[0]] + s[1..];
  }

  lemma HeadTail(s: seq<string>)
    requires |s| > 0
    ensures s == [s[0]] + s[1..]
  {
  }

  /** A sorted sequence is determined by its multiset of elements, so any
      sorting algorithm, Python's included, gives the same result as Sort. */
  lemma {:induction false} SortedUnique(a: seq<string>, b: seq<string>)
    requires Sorted(a) && Sorted(b)
    requires multiset(a) == multiset(b)
    ensures a == b
  {
    assert |b| == |a| by { assert |multiset(b)| == |multiset(a)|; }
    if |a| > 0 {
      assert a[0] in multiset(a) && b[0] in multiset(b);
      SortedHeadLeast(a, b[0]);
      SortedHeadLeast(b, a[0]);
      LeAntisymmetric(a[0], b[0]);
      SortedTail(a);
      SortedTail(b);
      SortedUnique(a[1..], b[1..]);
      HeadTail(a);
      HeadTail(b);
    }
  }

  /** Sorting brings in no new element, so no sorted part contains c when
      no part did. */
  lemma SortAvoids(s: seq<string>, c: char)
    requires forall i :: 0 <= i < |s| ==> c !in s[i]
    ensures forall i :: 0 <= i < |Sort(s)| ==> c !in Sort(s)[i]
  {
    forall i | 0 <= i < |Sort(s)|
      ensures c !in Sort(s)[i]
    {
      assert Sort(s)[i] in multiset(Sort(s));
      assert Sort(s)[i] in multiset(s);
    }
  }

  /** Joining the sorted parts with c is undone by splitting at c, provided
      no part contains c. */
  lemma SortedJoinSplits(parts: seq<string>, c: char)
    ensures |parts| > 0 && (forall i :: 0 <= i < |parts| ==> c !in parts[i]) ==>
      Split(Join([c], Sort(parts)), c) == Sort(parts)
  {
    if |parts| > 0 && forall i :: 0 <= i < |parts| ==> c !in parts[i] {
      SortAvoids(parts, c);
      assert |Sort(parts)| == |parts| by { assert |multiset(Sort(parts))| == |multiset(parts)|; }
      SplitJoin(Sort(parts), c);
    }
  }

  /** `'-'.join(sorted(labels))` depends only on the multiset of labels. */
  lemma SortedJoinOfPermutation(sep: string, xs: seq<string>, ys: seq<string>)
    requires multiset(xs) == multiset(ys)
    ensures Join(sep, Sort(xs)) == Join(sep, Sort(ys))
  {
    SortedUnique(Sort(xs), Sort(ys));
  }

  // ---------------------------------------------------------------------------
  // Replacing and formatting

  /** `s.replace(a, b)` for single characters a and b. */
  function Replace(s: string, a: char, b: char): (r: string)
    ensures |r| == |s|
    ensures forall i :: 0 <= i < |s| ==> r[i] == if s[i] == a then b else s[i]
  {
    if |s| == 0 then "" else [if s[0] == a then b else s[0]] + Replace(s[1..], a, b)
  }

  /** After the replacement no a is left, unless a is b. */
  lemma ReplaceRemoves(s: string, a: char, b: char)
    requires a != b
    ensures a !in Replace(s, a, b)
  {
  }

  function DigitChar(d: nat): (c: char)
    requires d < 10
    ensures '0' <= c <= '9'
  {
    ('0' as int + d) as char
  }

  function DigitValue(c: char): nat
  {
    if '0' <= c <= '9' then (c as int - '0' as int) as nat else 0
  }

  /** The decimal digits of n, most significant first, without leading zeros. */
  function Digits(n: nat): (r: string)
    ensures |r| >= 1
    ensures forall i :: 0 <= i < |r| ==> '0' <= r[i] <= '9'
    ensures |r| > 1 ==> r[0] != '0'
  {
    if n < 10 then [DigitChar(n)] else Digits(n / 10) + [DigitChar(n % 10)]
  }

  /** `"%d" % n`: a minus sign exactly for a negative n, then decimal digits. */
  function FormatInt(n: int): (r: string)
    ensures |r| >= 1
    ensures r[0] == '-' <==> n < 0
    ensures forall i :: 0 <= i < |r| && (i > 0 || n >= 0) ==> '0' <= r[i] <= '9'
    ensures |r| > 1 && r[0] != '-' ==> r[0] != '0'
    ensures r[0] == '-' ==> |r| > 1 && (|r| > 2 ==> r[1] != '0')
  {
    if n < 0 then "-" + Digits(-n) else Digits(n)
  }

  /** The value of a string of decimal digits. */
  function DigitsValue(s: string): nat
  {
    if |s| == 0 then 0 else 10 * DigitsValue(s[..|s| - 1]) + DigitValue(s[|s| - 1])
  }

  /** `int(s)` on what `"%d"` produces. */
  function ParseInt(s: string): int
  {
    if |s| > 0 && s[0] == '-' then -(DigitsValue(s[1..]) as int) else DigitsValue(s)
  }

  lemma {:induction false} DigitsRoundTrip(n: nat)
    ensures DigitsValue(Digits(n)) == n
  {
    var q, d := n / 10, n % 10;
    assert DigitValue(DigitChar(d)) == d;
    if n >= 10 {
      DigitsRoundTrip(q);
      var s := Digits(q) + [DigitChar(d)];
      assert s[..|s| - 1] == Digits(q);
      assert DigitsValue(s) == 10 * q + d;
    }
  }

  /** `"%d"` is undone by `int`. */
  lemma FormatIntRoundTrip(n: int)
    ensures ParseInt(FormatInt(n)) == n
  {
    if n < 0 {
      DigitsRoundTrip(-n);
      assert ("-" + Digits(-n))[1..] == Digits(-n);
    } else {
      DigitsRoundTrip(n);
    }
  }
}
