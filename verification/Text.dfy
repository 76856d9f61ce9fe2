/** Strings as the program's languages see them: a `char` stands for one code unit
    (a byte of a path, a character of a configuration value). */
module Text {

  datatype Option<+T> = None | Some(value: T)

  datatype Result<+T, +E> = Ok(value: T) | Err(error: E)

  // ----- splitting and joining -----------------------------------------------------

  /** Prepends a character to the first piece. */
  function Glue(c: char, parts: seq<string>): seq<string>
    requires parts != []
  {
    [[c] + parts[0]] + parts[1..]
  }

  lemma GlueAppend(c: char, a: seq<string>, b: seq<string>)
    requires a != []
    ensures Glue(c, a + b) == Glue(c, a) + b
  {
    assert (a + b)[1..] == a[1..] + b;
  }

  /** The pieces of `s` between occurrences of `sep`: always at least one. */
  function Split(s: string, sep: char): (parts: seq<string>)
    ensures |parts| >= 1
    ensures forall p | p in parts :: sep !in p
  {
    if s == "" then [""]
    else
      var rest := Split(s[1..], sep);
      if s[0] == sep then [""] + rest else Glue(s[0], rest)
  }

  function Join(parts: seq<string>, sep: string): string {
    if |parts| == 0 then ""
    else if |parts| == 1 then parts[0]
    else parts[0] + sep + Join(parts[1..], sep)
  }

  lemma {:induction false} JoinSplit(s: string, sep: char)
    ensures Join(Split(s, sep), [sep]) == s
  {
    if s != "" {
      JoinSplit(s[1..], sep);
      var rest := Split(s[1..], sep);
      if s[0] == sep {
        assert ([""] + rest)[1..] == rest;
      } else {
        var head := [s[0]] + rest[0];
        assert ([head] + rest[1..])[1..] == rest[1..];
        if |rest| > 1 {
          assert head + [sep] + Join(rest[1..], [sep]) == [s[0]] + (rest[0] + [sep] + Join(rest[1..], [sep]));
        }
      }
      assert s == [s[0]] + s[1..];
    }
  }

  lemma {:induction false} SplitPlain(s: string, sep: char)
    requires sep !in s
    ensures Split(s, sep) == [s]
  {
    if s != "" {
      assert s[0] in s && s == [s[0]] + s[1..];
      SplitPlain(s[1..], sep);
    }
  }

  /** A separator between two strings cuts their split in two. */
  lemma {:induction false} SplitAppend(a: string, b: string, sep: char)
    ensures Split(a + [sep] + b, sep) == Split(a, sep) + Split(b, sep)
  {
    var s := a + [sep] + b;
    if a == "" {
      assert s[1..] == b;
    } else {
      assert s[1..] == a[1..] + [sep] + b && s[0] == a[0];
      SplitAppend(a[1..], b, sep);
      if a[0] == sep {
        assert [""] + (Split(a[1..], sep) + Split(b, sep)) == [""] + Split(a[1..], sep) + Split(b, sep);
      } else {
        GlueAppend(a[0], Split(a[1..], sep), Split(b, sep));
      }
    }
  }

  lemma {:induction false} SplitJoin(parts: seq<string>, sep: char)
    requires parts != [] && forall p | p in parts :: sep !in p
    ensures Split(Join(parts, [sep]), sep) == parts
  {
    if |parts| == 1 {
      SplitPlain(parts[0], sep);
    } else {
      SplitJoin(parts[1..], sep);
      SplitPlain(parts[0], sep);
      SplitAppend(parts[0], Join(parts[1..], [sep]), sep);
    }
  }

  // ----- bytewise order, as Rust's and Go's string comparison ----------------------

  predicate Le(a: string, b: string) {
    a == "" || (b != "" && (a[0] < b[0] || (a[0] == b[0] && Le(a[1..], b[1..]))))
  }

  lemma {:induction false} LeReflexive(a: string)
    ensures Le(a, a)
  {
    if a != "" { LeReflexive(a[1..]); }
  }

  lemma {:induction false} LeTotal(a: string, b: string)
    ensures Le(a, b) || Le(b, a)
  {
    if a != "" && b != "" { LeTotal(a[1..], b[1..]); }
  }

  lemma {:induction false} LeTransitive(a: string, b: string, c: string)
    requires Le(a, b) && Le(b, c)
    ensures Le(a, c)
  {
    if a != "" && a[0] == b[0] && b[0] == c[0] { LeTransitive(a[1..], b[1..], c[1..]); }
  }

  lemma {:induction false} LeAntisymmetric(a: string, b: string)
    requires Le(a, b) && Le(b, a)
    ensures a == b
  {
    if a != "" && b != "" {
      LeAntisymmetric(a[1..], b[1..]);
      assert a == [a[0]] + a[1..] && b == [b[0]] + b[1..];
    }
  }

  /** Rearranging a sequence keeps its members. */
  lemma SameMembers<T>(a: seq<T>, b: seq<T>)
    requires multiset(a) == multiset(b)
    ensures forall x :: x in a <==> x in b
  {
    assert forall x :: x in a <==> x in multiset(a);
    assert forall x :: x in b <==> x in multiset(b);
  }

  /** A prefix never sorts after the string it starts. */
  lemma {:induction false} PrefixLe(a: string, b: string)
    requires a <= b
    ensures Le(a, b)
  {
    if a != "" { PrefixLe(a[1..], b[1..]); }
  }

  ghost predicate Sorted(ss: seq<string>) {
    forall i, j | 0 <= i < j < |ss| :: Le(ss[i], ss[j])
  }

  function Insert(s: string, ss: seq<string>): (r: seq<string>)
    ensures multiset(r) == multiset(ss) + multiset{s}
  {
    if ss == [] then [s]
    else if Le(s, ss[0]) then [s] + ss
    else
      assert ss == [ss[0]] + ss[1..];
      [ss[0]] + Insert(s, ss[1..])
  }

  function Sort(ss: seq<string>): (r: seq<string>)
    ensures multiset(r) == multiset(ss)
  {
    if ss == [] then []
    else
      assert ss == [ss[0]] + ss[1..];
      Insert(ss[0], Sort(ss[1..]))
  }

  lemma PrependSorted(s: string, ss: seq<string>)
    requires Sorted(ss) && forall x | x in ss :: Le(s, x)
    ensures Sorted([s] + ss)
  {
    var r := [s] + ss;
    forall i, j | 0 <= i < j < |r| ensures Le(r[i], r[j]) {
      assert r[j] == ss[j - 1];
      if i > 0 { assert r[i] == ss[i - 1]; }
    }
  }

  lemma HeadIsLeast(ss: seq<string>)
    requires Sorted(ss) && ss != []
    ensures forall x | x in ss :: Le(ss[0], x)
    ensures Sorted(ss[1..])
  {
    forall x | x in ss ensures Le(ss[0], x) {
      var k :| 0 <= k < |ss| && ss[k] == x;
      LeReflexive(ss[0]);
    }
  }

  lemma {:induction false} InsertSorted(s: string, ss: seq<string>)
    requires Sorted(ss)
    ensures Sorted(Insert(s, ss))
  {
    if ss != [] {
      HeadIsLeast(ss);
      LeTotal(s, ss[0]);
      if Le(s, ss[0]) {
        forall x | x in ss ensures Le(s, x) { LeTransitive(s, ss[0], x); }
        PrependSorted(s, ss);
      } else {
        InsertSorted(s, ss[1..]);
        var tail := Insert(s, ss[1..]);
        forall x | x in tail ensures Le(ss[0], x) {
          assert x in multiset(tail);
          assert x == s || x in ss[1..];
        }
        PrependSorted(ss[0], tail);
      }
    }
  }

  lemma {:induction false} SortSorted(ss: seq<string>)
    ensures Sorted(Sort(ss))
  {
    if ss != [] {
      SortSorted(ss[1..]);
      InsertSorted(ss[0], Sort(ss[1..]));
    }
  }

  lemma SortMembers(ss: seq<string>)
    ensures forall s :: s in Sort(ss) <==> s in ss
  {
    forall s ensures s in Sort(ss) <==> s in ss {
      assert s in Sort(ss) <==> s in multiset(Sort(ss));
      assert s in ss <==> s in multiset(ss);
    }
  }

  /** Drops every element equal to its predecessor, as `dedup` and `slices.Compact` do. */
  function Compact(ss: seq<string>): (r: seq<string>)
    ensures forall s :: s in r <==> s in ss
    ensures ss != [] ==> r != [] && r[0] == ss[0]
  {
    if |ss| <= 1 then ss
    else
      assert ss == [ss[0]] + ss[1..];
      if ss[0] == ss[1] then Compact(ss[1..]) else [ss[0]] + Compact(ss[1..])
  }

  ghost predicate StrictlySorted(ss: seq<string>) {
    forall i, j | 0 <= i < j < |ss| :: Le(ss[i], ss[j]) && ss[i] != ss[j]
  }

  lemma {:induction false} CompactStrictlySorted(ss: seq<string>)
    requires Sorted(ss)
    ensures StrictlySorted(Compact(ss))
  {
    if |ss| > 1 {
      CompactStrictlySorted(ss[1..]);
      if ss[0] != ss[1] {
        var tail := Compact(ss[1..]);
        forall j | 0 <= j < |tail| ensures Le(ss[0], tail[j]) && ss[0] != tail[j] {
          assert tail[j] in ss[1..];
          var k :| 0 <= k < |ss[1..]| && ss[1..][k] == tail[j];
          assert Le(ss[1], tail[j]) by { if k == 0 { LeReflexive(ss[1]); } }
          if ss[0] == tail[j] { LeAntisymmetric(ss[0], ss[1]); }
        }
      }
    }
  }

  // ----- decimal numbers ---------------------------------------------------------------

  function Digit(d: nat): char
    requires d < 10
  {
    ('0' as int + d) as char
  }

  predicate IsDigit(c: char) { '0' <= c <= '9' }

  function Dec(n: nat): (s: string)
    ensures s != "" && forall c | c in s :: IsDigit(c)
  {
    if n < 10 then [Digit(n)] else Dec(n / 10) + [Digit(n % 10)]
  }

  function Undec(s: string): nat
    requires forall c | c in s :: IsDigit(c)
  {
    if s == "" then 0
    else
      var last := s[|s| - 1];
      assert last in s && IsDigit(last);
      var value: int := last as int - '0' as int;
      10 * Undec(s[..|s| - 1]) + value
  }

  lemma {:induction false} UndecDec(n: nat)
    ensures Undec(Dec(n)) == n
  {
    if n < 10 {
      assert [Digit(n)][..0] == "";
      assert Undec([Digit(n)]) == 10 * Undec("") + n;
    } else {
      UndecDec(n / 10);
      assert (Dec(n / 10) + [Digit(n % 10)])[..|Dec(n / 10)|] == Dec(n / 10);
    }
  }
}
