/** JavaScript string operations the program relies on: `split`, `join`,
    `endsWith`, the `<` order on strings and `Array.prototype.sort` as it
    orders an array of strings. */
module Strings {

  /** A character of the regular-expression class `\w` (no `u` flag). */
  predicate IsWordChar(c: char) {
    ('a' <= c <= 'z') || ('A' <= c <= 'Z') || ('0' <= c <= '9') || c == '_'
  }

  predicate StartsWith(s: string, prefix: string) {
    |prefix| <= |s| && s[..|prefix|] == prefix
  }

  predicate EndsWith(s: string, suffix: string) {
    |suffix| <= |s| && s[|s| - |suffix|..] == suffix
  }

  /** A string ends with what was appended to it. */
  lemma EndsWithAppended(s: string, t: string)
    ensures EndsWith(s + t, t)
  {
    assert (s + t)[|s|..] == t;
  }

  /** `s.split(sep)` for a one-character separator: the empty string splits
      into one empty piece and every separator starts a new piece. */
  function Split(s: string, sep: char): (r: seq<string>)
    ensures |r| >= 1
    ensures sep !in s ==> r == [s]
    ensures forall i :: 0 <= i < |r| ==> sep !in r[i]
    decreases |s|
  {
    if |s| == 0 then [""]
    else
      var rest := Split(s[1..], sep);
      assert s == [s[0]] + s[1..];
      if s[0] == sep then [""] + rest
      else [[s[0]] + rest[0]] + rest[1..]
  }

  /** `segs.join(sep)`. */
  function Join(segs: seq<string>, sep: string): string
    decreases |segs|
  {
    if |segs| == 0 then ""
    else if |segs| == 1 then segs[0]
    else segs[0] + sep + Join(segs[1..], sep)
  }

  lemma {:induction false} SplitPrefixWithoutSep(a: string, t: string, sep: char)
    requires sep !in a
    ensures Split(a + t, sep) == [a + Split(t, sep)[0]] + Split(t, sep)[1..]
    decreases |a|
  {
    if |a| > 0 {
      var st := Split(t, sep);
      assert (a + t)[0] == a[0] && (a + t)[1..] == a[1..] + t;
      SplitPrefixWithoutSep(a[1..], t, sep);
      var rest := Split(a[1..] + t, sep);
      assert rest[0] == a[1..] + st[0] && rest[1..] == st[1..];
      assert Split(a + t, sep) == [[a[0]] + rest[0]] + rest[1..];
      ConsAppend(a, st[0]);
    } else {
      assert a + t == t;
      assert a + Split(t, sep)[0] == Split(t, sep)[0];
      assert Split(t, sep) == [Split(t, sep)[0]] + Split(t, sep)[1..];
    }
  }

  lemma ConsAppend(a: string, y: string)
    requires |a| > 0
    ensures [a[0]] + (a[1..] + y) == a + y
  {
    assert a == [a[0]] + a[1..];
  }

  /** Splitting a join gives back the pieces when no piece holds the separator. */
  lemma {:induction false} SplitJoin(segs: seq<string>, sep: char)
    requires |segs| >= 1
    requires forall i :: 0 <= i < |segs| ==> sep !in segs[i]
    ensures Split(Join(segs, [sep]), sep) == segs
    decreases |segs|
  {
    if |segs| > 1 {
      var j := Join(segs[1..], [sep]);
      assert Join(segs, [sep]) == segs[0] + ([sep] + j);
      SplitPrefixWithoutSep(segs[0], [sep] + j, sep);
      assert ([sep] + j)[1..] == j;
      assert Split([sep] + j, sep) == [""] + Split(j, sep);
      SplitJoin(segs[1..], sep);
      assert segs[0] + "" == segs[0];
      assert segs == [segs[0]] + segs[1..];
    } else {
      assert Join(segs, [sep]) == segs[0];
    }
  }

  lemma {:induction false} JoinNonEmpty(segs: seq<string>, sep: string)
    requires |segs| >= 1 && segs[0] != ""
    ensures Join(segs, sep) != ""
  {
    if |segs| > 1 {
      assert Join(segs, sep) == segs[0] + (sep + Join(segs[1..], sep));
      assert |Join(segs, sep)| >= |segs[0]|;
    }
  }

  /** Comparing two directory lists through `join("/")` is comparing the
      lists, as long as no segment is empty or holds a `/`. */
  lemma JoinInjective(a: seq<string>, b: seq<string>)
    requires forall i :: 0 <= i < |a| ==> a[i] != "" && '/' !in a[i]
    requires forall i :: 0 <= i < |b| ==> b[i] != "" && '/' !in b[i]
    ensures Join(a, "/") == Join(b, "/") <==> a == b
  {
    if Join(a, "/") == Join(b, "/") {
      if |a| == 0 && |b| > 0 {
        JoinNonEmpty(b, "/");
      } else if |b| == 0 && |a| > 0 {
        JoinNonEmpty(a, "/");
      } else if |a| > 0 && |b| > 0 {
        SplitJoin(a, '/');
        SplitJoin(b, '/');
      }
    }
  }

  /** The UTF-16 code units JavaScript stores for a character: the character
      itself below U+10000, otherwise a high and a low surrogate. */
  function Units(c: char): (u: seq<int>)
    ensures 1 <= |u| <= 2
    ensures (c as int) < 0x10000 <==> |u| == 1
    ensures |u| == 1 ==> u[0] == c as int && (u[0] < 0xD800 || 0xE000 <= u[0])
    ensures |u| == 2 ==> 0xD800 <= u[0] < 0xDC00 && 0xDC00 <= u[1] < 0xE000
  {
    if (c as int) < 0x10000 then [c as int]
    else [0xD800 + (c as int - 0x10000) / 0x400, 0xDC00 + (c as int - 0x10000) % 0x400]
  }

  /** A string as JavaScript holds it: its characters' code units in order. */
  function Utf16(s: string): (u: seq<int>)
    ensures |s| <= |u| <= 2 * |s|
    decreases |s|
  {
    if |s| == 0 then [] else Units(s[0]) + Utf16(s[1..])
  }

  /** Two characters with the same code units are the same character. */
  lemma UnitsInjective(c: char, d: char)
    requires Units(c) == Units(d)
    ensures c == d
  {
    if 0x10000 <= (c as int) {
      var x := c as int - 0x10000;
      var y := d as int - 0x10000;
      assert x == x / 0x400 * 0x400 + x % 0x400;
      assert y == y / 0x400 * 0x400 + y % 0x400;
    }
  }

  /** No character's code units begin another's: the first unit says
      whether a surrogate pair follows. */
  lemma UnitsPrefixFree(c: char, x: seq<int>, d: char, y: seq<int>)
    requires Units(c) + x == Units(d) + y
    ensures c == d && x == y
  {
    var u, v := Units(c), Units(d);
    assert (u + x)[0] == u[0] && (v + y)[0] == v[0];
    assert |u| == |v|;
    if |u| == 2 {
      assert (u + x)[1] == u[1] && (v + y)[1] == v[1];
    }
    assert u == (u + x)[..|u|] && v == (v + y)[..|v|];
    UnitsInjective(c, d);
    assert x == (u + x)[|u|..] && y == (v + y)[|v|..];
  }

  /** Different strings are held as different code units. */
  lemma {:induction false} Utf16Injective(a: string, b: string)
    requires Utf16(a) == Utf16(b)
    ensures a == b
    decreases |a|
  {
    if |a| > 0 && |b| > 0 {
      UnitsPrefixFree(a[0], Utf16(a[1..]), b[0], Utf16(b[1..]));
      Utf16Injective(a[1..], b[1..]);
      assert a == [a[0]] + a[1..] && b == [b[0]] + b[1..];
    }
  }

  /** Lexicographic order on code units, a proper prefix first. */
  predicate LessUnits(a: seq<int>, b: seq<int>)
    decreases |a|
  {
    if |b| == 0 then false
    else if |a| == 0 then true
    else if a[0] != b[0] then a[0] < b[0]
    else LessUnits(a[1..], b[1..])
  }

  /** The `<` relation on JavaScript strings, which is also the order
      `Array.prototype.sort` puts strings in when given no comparator: it
      compares UTF-16 code units, not characters. */
  predicate Less(a: string, b: string) {
    LessUnits(Utf16(a), Utf16(b))
  }

  /** Code units order a character above U+FFFF below U+FF01, while the
      characters themselves are ordered the other way. */
  lemma LessBySurrogates()
    ensures Less("\U{1F600}", "\U{FF01}") && '\U{FF01}' < '\U{1F600}'
  {
    assert Units('\U{1F600}') == [0xD83D, 0xDE00];
    assert Utf16("\U{1F600}") == [0xD83D, 0xDE00];
    assert Utf16("\U{FF01}") == [0xFF01];
  }

  lemma {:induction false} LessUnitsIrreflexive(a: seq<int>)
    ensures !LessUnits(a, a)
    decreases |a|
  {
    if |a| > 0 {
      LessUnitsIrreflexive(a[1..]);
    }
  }

  lemma {:induction false} LessUnitsTransitive(a: seq<int>, b: seq<int>, c: seq<int>)
    requires LessUnits(a, b) && LessUnits(b, c)
    ensures LessUnits(a, c)
    decreases |a|
  {
    if |a| > 0 && a[0] == b[0] && b[0] == c[0] {
      LessUnitsTransitive(a[1..], b[1..], c[1..]);
    }
  }

  lemma {:induction false} LessUnitsTotal(a: seq<int>, b: seq<int>)
    requires a != b
    ensures LessUnits(a, b) != LessUnits(b, a)
    decreases |a|
  {
    if |a| > 0 && |b| > 0 && a[0] == b[0] {
      assert a == [a[0]] + a[1..] && b == [b[0]] + b[1..];
      LessUnitsTotal(a[1..], b[1..]);
    }
  }

  lemma LessIrreflexive(a: string)
    ensures !Less(a, a)
  {
    LessUnitsIrreflexive(Utf16(a));
  }

  lemma LessTransitive(a: string, b: string, c: string)
    requires Less(a, b) && Less(b, c)
    ensures Less(a, c)
  {
    LessUnitsTransitive(Utf16(a), Utf16(b), Utf16(c));
  }

  lemma LessTotal(a: string, b: string)
    requires a != b
    ensures Less(a, b) != Less(b, a)
  {
    if Utf16(a) == Utf16(b) {
      Utf16Injective(a, b);
    }
    LessUnitsTotal(Utf16(a), Utf16(b));
  }

  predicate StrictlySorted(s: seq<string>) {
    forall i, j :: 0 <= i < j < |s| ==> Less(s[i], s[j])
  }

  ghost predicate IsLeast(m: string, s: set<string>) {
    m in s && forall x :: x in s && x != m ==> Less(m, x)
  }

  lemma {:induction false} LeastExists(s: set<string>)
    requires s != {}
    ensures exists m :: IsLeast(m, s)
    decreases |s|
  {
    var x :| x in s;
    if s != {x} {
      LeastExists(s - {x});
      var m :| IsLeast(m, s - {x});
      if Less(m, x) {
        assert IsLeast(m, s);
      } else {
        LessTotal(m, x);
        forall y | y in s && y != x
          ensures Less(x, y)
        {
          if y != m {
            LessTransitive(x, m, y);
          }
        }
        assert IsLeast(x, s);
      }
    } else {
      assert IsLeast(x, s);
    }
  }

  /** The elements of a set of strings in ascending order: what
      `Array.from(set).sort()` returns, whatever order the set iterates in. */
  ghost function SortedSet(s: set<string>): (r: seq<string>)
    ensures StrictlySorted(r)
    ensures |r| == |s|
    ensures forall x :: x in r <==> x in s
    decreases |s|
  {
    if s == {} then []
    else
      LeastExists(s);
      var m :| IsLeast(m, s);
      var rest := SortedSet(s - {m});
      assert forall i :: 0 <= i < |rest| ==> rest[i] in s - {m};
      SortedCons(m, rest);
      [m] + rest
  }

  /** A string below every element of an ascending list can go in front. */
  lemma SortedCons(m: string, rest: seq<string>)
    requires StrictlySorted(rest) && forall i :: 0 <= i < |rest| ==> Less(m, rest[i])
    ensures StrictlySorted([m] + rest)
  {
    var r := [m] + rest;
    forall i, j | 0 <= i < j < |r| ensures Less(r[i], r[j]) {
      assert r[j] == rest[j - 1];
      if i > 0 {
        assert r[i] == rest[i - 1];
      }
    }
  }

  /** Two ascending lists of the same strings are the same list. */
  lemma {:induction false} SortedUnique(a: seq<string>, b: seq<string>)
    requires StrictlySorted(a) && StrictlySorted(b)
    requires forall x :: x in a <==> x in b
    ensures a == b
    decreases |a|
  {
    if |a| > 0 && |b| > 0 {
      assert a[0] == b[0] by {
        assert a[0] in b && b[0] in a;
        var k :| 0 <= k < |b| && b[k] == a[0];
        var j :| 0 <= j < |a| && a[j] == b[0];
        if k > 0 && j > 0 {
          LessIrreflexive(a[0]);
          if a[0] != b[0] {
            LessTotal(a[0], b[0]);
          }
        }
      }
      forall x
        ensures x in a[1..] <==> x in b[1..]
      {
        if x in a[1..] {
          var k :| 1 <= k < |a| && a[k] == x;
          assert Less(a[0], x);
          LessIrreflexive(x);
          assert x in a && x in b && x != b[0];
          var k' :| 0 <= k' < |b| && b[k'] == x;
          assert b[1..][k' - 1] == x;
        }
        if x in b[1..] {
          var k :| 1 <= k < |b| && b[k] == x;
          assert Less(b[0], x);
          LessIrreflexive(x);
          assert x in b && x in a && x != a[0];
          var k' :| 0 <= k' < |a| && a[k'] == x;
          assert a[1..][k' - 1] == x;
        }
      }
      SortedUnique(a[1..], b[1..]);
      assert a == [a[0]] + a[1..] && b == [b[0]] + b[1..];
    } else if |a| > 0 {
      ElementIn(a, 0);
      assert false;
    } else if |b| > 0 {
      ElementIn(b, 0);
      assert false;
    }
  }

  lemma ElementIn<T>(s: seq<T>, i: nat)
    requires i < |s|
    ensures s[i] in s
  {
  }

  /** Inserting a new string into an ascending list at its place. */
  function InsertSorted(s: seq<string>, x: string): (r: seq<string>)
    requires StrictlySorted(s) && x !in s
    ensures StrictlySorted(r)
    ensures |r| == |s| + 1
    ensures forall y :: y in r <==> y in s || y == x
    decreases |s|
  {
    if |s| == 0 then [x]
    else if Less(x, s[0]) then
      assert forall i :: 0 <= i < |s| ==> Less(x, s[i]) by {
        forall i | 0 < i < |s| ensures Less(x, s[i]) {
          LessTransitive(x, s[0], s[i]);
        }
      }
      [x] + s
    else
      LessTotal(x, s[0]);
      assert x != s[0] && Less(s[0], x);
      var rest := InsertSorted(s[1..], x);
      assert forall i :: 0 <= i < |rest| ==> Less(s[0], rest[i]) by {
        forall i | 0 <= i < |rest| ensures Less(s[0], rest[i]) {
          assert rest[i] in rest;
          if rest[i] != x {
            var k :| 0 <= k < |s[1..]| && s[1..][k] == rest[i];
            assert s[k + 1] == rest[i];
          }
        }
      }
      [s[0]] + rest
  }

  /** `[...set].sort()` as the program runs it: the elements are taken out of
      the set one at a time, in whatever order, and put in place. */
  method SortStrings(s: set<string>) returns (r: seq<string>)
    ensures r == SortedSet(s)
  {
    r := [];
    var rest := s;
    while rest != {}
      invariant rest <= s
      invariant StrictlySorted(r)
      invariant forall y :: y in r <==> y in s && y !in rest
      decreases |rest|
    {
      var x :| x in rest;
      r := InsertSorted(r, x);
      rest := rest - {x};
    }
    SortedUnique(r, SortedSet(s));
  }
}
