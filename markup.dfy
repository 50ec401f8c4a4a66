/** The string scanners of the themes' markdown notes: `@name` references,
    the two-pass link rewrite, the first-`#` title and the `https?:` line
    grab. Each is the JavaScript regular expression it stands for, written
    as a left-to-right scan. */
module Markup {
  import opened Wrappers
  import opened Strings

  /** `[-\w]`: a character of a note name in a reference. */
  predicate IsRefChar(c: char) {
    c == '-' || IsWordChar(c)
  }

  /** `\s` of JavaScript regular expressions. */
  predicate IsSpace(c: char) {
    c == '\t' || c == '\n' || c == '\U{000B}' || c == '\U{000C}' || c == '\r' || c == ' ' ||
    c == '\U{00A0}' || c == '\U{1680}' || ('\U{2000}' <= c <= '\U{200A}') ||
    c == '\U{2028}' || c == '\U{2029}' || c == '\U{202F}' || c == '\U{205F}' ||
    c == '\U{3000}' || c == '\U{FEFF}'
  }

  /** The characters `.` does not match. */
  predicate IsLineTerminator(c: char) {
    c == '\n' || c == '\r' || c == '\U{2028}' || c == '\U{2029}'
  }

  /** Length of the longest prefix of `s` made of name characters: what the
      greedy `[-\w]+` takes. */
  function Run(s: string): (n: nat)
    ensures n <= |s|
    ensures forall k :: 0 <= k < n ==> IsRefChar(s[k])
    ensures n < |s| ==> !IsRefChar(s[n])
  {
    if |s| > 0 && IsRefChar(s[0]) then 1 + Run(s[1..]) else 0
  }

  /** An `@` at `j` followed by at least one name character: a match of
      `/@([-\w]+)/` starts there. */
  predicate HandleAt(s: string, j: int) {
    0 <= j < |s| - 1 && s[j] == '@' && IsRefChar(s[j + 1])
  }

  /** The name captured by the match at an `@`. */
  function HandleName(s: string, j: int): string
    requires HandleAt(s, j)
  {
    s[j + 1..j + 1 + Run(s[j + 1..])]
  }

  /** `new Set(text.matchAll(/@([-\w]+)/g).map((match) => match[1]))`. A match
      consumes the `@` and its name, and the scan goes on after the name. */
  function Refs(s: string): set<string>
  {
    if |s| == 0 then {}
    else if s[0] == '@' && Run(s[1..]) > 0 then
      var n := Run(s[1..]);
      {s[1..1 + n]} + Refs(s[1 + n..])
    else Refs(s[1..])
  }

  /** The names the regular expression captures anywhere in `s`. */
  ghost function Handles(s: string): set<string> {
    set j | 0 <= j < |s| && HandleAt(s, j) :: HandleName(s, j)
  }

  /** Away from the front, a suffix has the handles of the whole string at
      the same places. */
  lemma HandleShift(s: string, d: nat, j: nat)
    requires d <= |s|
    ensures HandleAt(s[d..], j) <==> HandleAt(s, j + d)
    ensures HandleAt(s[d..], j) ==> HandleName(s[d..], j) == HandleName(s, j + d)
  {
    if HandleAt(s[d..], j) {
      assert s[d..][j + 1..] == s[j + d + 1..];
    }
  }

  /** Every handle of `s` is the one at its front or a handle of the rest. */
  lemma HandlesInto(s: string)
    requires |s| > 0
    ensures forall r :: r in Handles(s) ==>
      (HandleAt(s, 0) && r == HandleName(s, 0)) || r in Handles(s[1..])
  {
    forall r | r in Handles(s)
      ensures (HandleAt(s, 0) && r == HandleName(s, 0)) || r in Handles(s[1..])
    {
      var j :| 0 <= j < |s| && HandleAt(s, j) && r == HandleName(s, j);
      HandleInto(s, j);
    }
  }

  /** A handle past the front is a handle of the rest. */
  lemma HandleInto(s: string, j: nat)
    requires HandleAt(s, j)
    ensures j == 0 || HandleName(s, j) in Handles(s[1..])
  {
    if j > 0 {
      HandleShift(s, 1, j - 1);
      assert HandleAt(s[1..], j - 1);
    }
  }

  /** The handle at the front and those of the rest are handles of `s`. */
  lemma HandlesFrom(s: string)
    requires |s| > 0
    ensures HandleAt(s, 0) ==> HandleName(s, 0) in Handles(s)
    ensures Handles(s[1..]) <= Handles(s)
  {
    forall r | r in Handles(s[1..]) ensures r in Handles(s) {
      var j :| 0 <= j < |s[1..]| && HandleAt(s[1..], j) && r == HandleName(s[1..], j);
      HandleShift(s, 1, j);
    }
  }

  lemma HandlesCons(s: string)
    requires |s| > 0
    ensures Handles(s) == (if HandleAt(s, 0) then {HandleName(s, 0)} else {}) + Handles(s[1..])
  {
    HandlesInto(s);
    HandlesFrom(s);
  }

  /** Dropping a front without handles keeps the handles. */
  lemma {:induction false} HandlesDrop(s: string, d: nat)
    requires d <= |s| && forall j :: 0 <= j < d ==> !HandleAt(s, j)
    ensures Handles(s[d..]) == Handles(s)
    decreases d
  {
    if d > 0 {
      HandlesCons(s);
      forall j | 0 <= j < d - 1 ensures !HandleAt(s[1..], j) {
        HandleShift(s, 1, j);
      }
      HandlesDrop(s[1..], d - 1);
      assert s[1..][d - 1..] == s[d..];
    }
  }

  /** The references are exactly the names after the `@`s that a name
      character follows; each is maximal, and duplicates collapse. */
  lemma {:induction false} RefsAreHandles(s: string)
    ensures Refs(s) == Handles(s)
    decreases |s|
  {
    if |s| > 0 {
      HandlesCons(s);
      if s[0] == '@' && Run(s[1..]) > 0 {
        var n := Run(s[1..]);
        assert HandleAt(s, 0) && HandleName(s, 0) == s[1..1 + n];
        forall j | 0 <= j < n ensures !HandleAt(s[1..], j) {
          assert IsRefChar(s[1..][j]);
        }
        HandlesDrop(s[1..], n);
        assert s[1..][n..] == s[1 + n..];
        RefsAreHandles(s[1 + n..]);
      } else {
        assert !HandleAt(s, 0) by {
          assert |s| > 1 ==> s[1..][0] == s[1];
        }
        RefsAreHandles(s[1..]);
      }
    }
  }

  /** A text with no `@` refers to no note. */
  lemma {:induction false} NoAtNoRefs(s: string)
    requires '@' !in s
    ensures Refs(s) == {}
  {
    RefsAreHandles(s);
    assert forall j :: 0 <= j < |s| ==> s[j] != '@';
  }

  /** `(@name)` with its greedy name closed by `)`, at the front of `s`. */
  predicate ParenHandle(s: string) {
    |s| >= 2 && s[0] == '(' && s[1] == '@' && 0 < Run(s[2..]) && 2 + Run(s[2..]) < |s| &&
    s[2 + Run(s[2..])] == ')'
  }

  /** Pass 1 of the link rewrite, `.replace(/\(@([-\w]+)\)/g, (_, name) =>
      `(${name}.html)`)`: a parenthesised handle becomes a link target. */
  function LinkParens(s: string): string
  {
    if |s| == 0 then ""
    else if ParenHandle(s) then
      var n := Run(s[2..]);
      "(" + s[2..2 + n] + ".html)" + LinkParens(s[3 + n..])
    else [s[0]] + LinkParens(s[1..])
  }

  /** Pass 2, `.replace(/@([-\w]+)/g, (handle, name) =>
      `[${handle}](${name}.html)`)`: every other handle becomes a link. */
  function LinkHandles(s: string): string
  {
    if |s| == 0 then ""
    else if s[0] == '@' && Run(s[1..]) > 0 then
      var n := Run(s[1..]);
      "[@" + s[1..1 + n] + "](" + s[1..1 + n] + ".html)" + LinkHandles(s[1 + n..])
    else [s[0]] + LinkHandles(s[1..])
  }

  /** The markdown handed to the renderer: pass 1, then pass 2. */
  function LinkRefs(s: string): string {
    LinkHandles(LinkParens(s))
  }

  /** Text without an `@` goes through both passes unchanged. */
  lemma {:induction false} NoAtUnchanged(s: string)
    requires '@' !in s
    ensures LinkParens(s) == s && LinkHandles(s) == s && LinkRefs(s) == s
    decreases |s|
  {
    if |s| > 0 {
      assert s == [s[0]] + s[1..];
      assert '@' !in s[1..];
      NoAtUnchanged(s[1..]);
    }
  }

  /** A name a handle can capture: one or more name characters. */
  predicate IsName(n: string) {
    |n| > 0 && forall i :: 0 <= i < |n| ==> IsRefChar(n[i])
  }

  /** A piece of markdown as the link rewrite sees it: a character it
      keeps, a parenthesised handle `(@name)`, or any other handle `@name`. */
  datatype Piece = Kept(c: char) | Target(name: string) | Mention(name: string)

  /** The text a piece stands for. */
  function SourceOf(p: Piece): string {
    match p
    case Kept(c) => [c]
    case Target(n) => "(@" + n + ")"
    case Mention(n) => "@" + n
  }

  /** What the rewrite makes of a piece: `(@n)` becomes the link target
      `(n.html)`, `@n` the link `[@n](n.html)`. */
  function LinkOf(p: Piece): string {
    match p
    case Kept(c) => [c]
    case Target(n) => "(" + n + ".html)"
    case Mention(n) => "[@" + n + "](" + n + ".html)"
  }

  /** The first character of the piece's text. */
  function Head(p: Piece): char {
    match p
    case Kept(c) => c
    case Target(_) => '('
    case Mention(_) => '@'
  }

  function Source(ps: seq<Piece>): string
    decreases |ps|
  {
    if |ps| == 0 then "" else SourceOf(ps[0]) + Source(ps[1..])
  }

  function Linked(ps: seq<Piece>): string
    decreases |ps|
  {
    if |ps| == 0 then "" else LinkOf(ps[0]) + Linked(ps[1..])
  }

  /** The text cut into pieces from left to right: a parenthesised handle
      where one starts, otherwise a handle, otherwise one kept character. */
  function Tokens(s: string): seq<Piece>
    decreases |s|
  {
    if |s| == 0 then []
    else if ParenHandle(s) then
      var n := Run(s[2..]);
      [Target(s[2..2 + n])] + Tokens(s[3 + n..])
    else if s[0] == '@' && Run(s[1..]) > 0 then
      var n := Run(s[1..]);
      [Mention(s[1..1 + n])] + Tokens(s[1 + n..])
    else [Kept(s[0])] + Tokens(s[1..])
  }

  /** A piece followed by `rest` is as the rewrite's patterns demand: names
      are maximal runs of name characters, an `@` kept is not followed by a
      name character, and a `(` is kept only where no `(@name)` starts. */
  predicate PieceOk(p: Piece, rest: seq<Piece>) {
    match p
    case Target(n) => IsName(n)
    case Mention(n) => IsName(n) && (|rest| == 0 || !IsRefChar(Head(rest[0])))
    case Kept(c) =>
      (c == '@' ==> |rest| == 0 || !IsRefChar(Head(rest[0]))) &&
      (c == '(' ==> !ParenHandle("(" + Source(rest)))
  }

  predicate Valid(ps: seq<Piece>)
    decreases |ps|
  {
    |ps| == 0 || (PieceOk(ps[0], ps[1..]) && Valid(ps[1..]))
  }

  /** The run of name characters in `n + x` is `n` when `x` does not go on
      with one. */
  lemma RunOf(n: string, x: string)
    requires forall i :: 0 <= i < |n| ==> IsRefChar(n[i])
    requires |x| == 0 || !IsRefChar(x[0])
    ensures Run(n + x) == |n|
  {
    assert forall i :: 0 <= i < |n| ==> (n + x)[i] == n[i];
    assert |x| > 0 ==> (n + x)[|n|] == x[0];
  }

  /** The first piece starts with the first character. */
  lemma TokensHead(s: string)
    requires |s| > 0
    ensures |Tokens(s)| > 0 && Head(Tokens(s)[0]) == s[0]
  {
  }

  /** Nothing is lost or reordered: the pieces spell the text. */
  lemma {:induction false} TokensSource(s: string)
    ensures Source(Tokens(s)) == s
    decreases |s|
  {
    if |s| > 0 {
      var p, k: nat;
      if ParenHandle(s) {
        var n := Run(s[2..]);
        p, k := Target(s[2..2 + n]), 3 + n;
        assert s == "(@" + s[2..2 + n] + ")" + s[k..];
      } else if s[0] == '@' && Run(s[1..]) > 0 {
        var n := Run(s[1..]);
        p, k := Mention(s[1..1 + n]), 1 + n;
        assert s == "@" + s[1..1 + n] + s[k..];
      } else {
        p, k := Kept(s[0]), 1;
        assert s == [s[0]] + s[1..];
      }
      assert Tokens(s) == [p] + Tokens(s[k..]);
      assert ([p] + Tokens(s[k..]))[1..] == Tokens(s[k..]);
      TokensSource(s[k..]);
    }
  }

  /** A valid piece in front of valid pieces. */
  lemma ValidCons(p: Piece, ts: seq<Piece>)
    requires PieceOk(p, ts) && Valid(ts)
    ensures Valid([p] + ts)
  {
    assert ([p] + ts)[1..] == ts;
  }

  /** The first piece where a parenthesised handle starts. */
  lemma TargetOk(s: string)
    requires ParenHandle(s)
    ensures var n := Run(s[2..]); Tokens(s) == [Target(s[2..2 + n])] + Tokens(s[3 + n..])
    ensures var n := Run(s[2..]); PieceOk(Target(s[2..2 + n]), Tokens(s[3 + n..]))
  {
    var n := Run(s[2..]);
    assert IsName(s[2..2 + n]) by {
      assert forall i :: 0 <= i < n ==> s[2..2 + n][i] == s[2..][i];
    }
  }

  /** The first piece where any other handle starts. */
  lemma MentionOk(s: string)
    requires |s| > 0 && s[0] == '@' && Run(s[1..]) > 0
    ensures var n := Run(s[1..]); Tokens(s) == [Mention(s[1..1 + n])] + Tokens(s[1 + n..])
    ensures var n := Run(s[1..]); PieceOk(Mention(s[1..1 + n]), Tokens(s[1 + n..]))
  {
    var n := Run(s[1..]);
    var rest := s[1 + n..];
    assert forall i :: 0 <= i < n ==> s[1..1 + n][i] == s[1..][i];
    if |rest| > 0 {
      TokensHead(rest);
      assert rest[0] == s[1..][n];
    }
  }

  /** The first piece where no handle starts. */
  lemma KeptOk(s: string)
    requires |s| > 0 && !ParenHandle(s) && !(s[0] == '@' && Run(s[1..]) > 0)
    ensures Tokens(s) == [Kept(s[0])] + Tokens(s[1..])
    ensures PieceOk(Kept(s[0]), Tokens(s[1..]))
  {
    if |s| > 1 {
      TokensHead(s[1..]);
    }
    if s[0] == '(' {
      TokensSource(s[1..]);
      assert s == "(" + s[1..];
    }
  }

  /** The pieces are those the patterns pick out. */
  lemma {:induction false} TokensValid(s: string)
    ensures Valid(Tokens(s))
    decreases |s|
  {
    if |s| > 0 {
      var p, k: nat;
      if ParenHandle(s) {
        var n := Run(s[2..]);
        p, k := Target(s[2..2 + n]), 3 + n;
        TargetOk(s);
      } else if s[0] == '@' && Run(s[1..]) > 0 {
        var n := Run(s[1..]);
        p, k := Mention(s[1..1 + n]), 1 + n;
        MentionOk(s);
      } else {
        p, k := Kept(s[0]), 1;
        KeptOk(s);
      }
      TokensValid(s[k..]);
      ValidCons(p, Tokens(s[k..]));
    }
  }

  /** Pass 2 keeps a character that is not an `@`. */
  lemma LinkHandlesCons(c: char, y: string)
    requires c != '@'
    ensures LinkHandles([c] + y) == [c] + LinkHandles(y)
  {
    assert ([c] + y)[1..] == y;
  }

  /** Pass 2 copies text without an `@`. */
  lemma {:induction false} LinkHandlesNoAt(p: string, x: string)
    requires '@' !in p
    ensures LinkHandles(p + x) == p + LinkHandles(x)
    decreases |p|
  {
    if |p| > 0 {
      ConsAppend(p, x);
      LinkHandlesCons(p[0], p[1..] + x);
      assert '@' !in p[1..];
      LinkHandlesNoAt(p[1..], x);
      ConsAppend(p, LinkHandles(x));
    } else {
      assert p + x == x;
    }
  }

  /** Pass 1 keeps a character that is not a `(`. */
  lemma LinkParensCons(c: char, y: string)
    requires c != '('
    ensures LinkParens([c] + y) == [c] + LinkParens(y)
  {
    assert ([c] + y)[1..] == y;
  }

  /** Pass 1 copies a run of name characters. */
  lemma {:induction false} LinkParensRun(r: string, x: string)
    requires forall i :: 0 <= i < |r| ==> IsRefChar(r[i])
    ensures LinkParens(r + x) == r + LinkParens(x)
    decreases |r|
  {
    if |r| > 0 {
      ConsAppend(r, x);
      LinkParensCons(r[0], r[1..] + x);
      LinkParensRun(r[1..], x);
      ConsAppend(r, LinkParens(x));
    } else {
      assert r + x == x;
    }
  }

  /** Pass 1 keeps the first character. */
  lemma LinkParensHead(s: string)
    requires |s| > 0
    ensures |LinkParens(s)| > 0 && LinkParens(s)[0] == s[0]
  {
  }

  /** Pass 2 on a handle whose name nothing extends. */
  lemma LinkHandlesAt(n: string, x: string)
    requires IsName(n) && (|x| == 0 || !IsRefChar(x[0]))
    ensures LinkHandles("@" + n + x) == "[@" + n + "](" + n + ".html)" + LinkHandles(x)
  {
    var s := "@" + n + x;
    assert s[1..] == n + x;
    RunOf(n, x);
    assert s[1..1 + |n|] == n && s[1 + |n|..] == x;
  }

  /** Both passes at a parenthesised handle. */
  lemma LinkRefsParen(s: string)
    requires ParenHandle(s)
    ensures var n := Run(s[2..]);
      LinkRefs(s) == "(" + s[2..2 + n] + ".html)" + LinkRefs(s[3 + n..])
  {
    var n := Run(s[2..]);
    var name := s[2..2 + n];
    assert LinkParens(s) == "(" + name + ".html)" + LinkParens(s[3 + n..]);
    assert '@' !in "(" + name + ".html)" by {
      assert forall i :: 0 <= i < n ==> name[i] == s[2..][i] && IsRefChar(name[i]);
    }
    LinkHandlesNoAt("(" + name + ".html)", LinkParens(s[3 + n..]));
  }

  /** Pass 1 at a handle that no `(` opens: the `@` and the name are copied. */
  lemma LinkParensMention(name: string, x: string)
    requires IsName(name)
    ensures LinkParens("@" + name + x) == "@" + name + LinkParens(x)
  {
    assert "@" + name + x == ['@'] + (name + x);
    LinkParensCons('@', name + x);
    LinkParensRun(name, x);
    assert ['@'] + (name + LinkParens(x)) == "@" + name + LinkParens(x);
  }

  /** Both passes at any other handle. */
  lemma LinkRefsMention(s: string)
    requires |s| > 0 && s[0] == '@' && Run(s[1..]) > 0
    ensures var n := Run(s[1..]);
      LinkRefs(s) == "[@" + s[1..1 + n] + "](" + s[1..1 + n] + ".html)" + LinkRefs(s[1 + n..])
  {
    var n := Run(s[1..]);
    var name := s[1..1 + n];
    var rest := s[1 + n..];
    assert forall i :: 0 <= i < n ==> name[i] == s[1..][i];
    assert s == "@" + name + rest;
    LinkParensMention(name, rest);
    if |rest| > 0 {
      LinkParensHead(rest);
      assert s[1..][n] == rest[0];
    }
    LinkHandlesAt(name, LinkParens(rest));
  }

  /** Both passes at a character that starts no handle. */
  lemma LinkRefsKept(s: string)
    requires |s| > 0 && !ParenHandle(s) && !(s[0] == '@' && Run(s[1..]) > 0)
    ensures LinkRefs(s) == [s[0]] + LinkRefs(s[1..])
  {
    var x := LinkParens(s[1..]);
    assert LinkParens(s) == [s[0]] + x;
    if |s| > 1 {
      LinkParensHead(s[1..]);
      assert s[1..][0] == s[1];
    }
    assert ([s[0]] + x)[1..] == x;
    if s[0] == '@' {
      RunOf([], x);
      assert [] + x == x;
    }
  }

  /** The two passes rewrite each piece on its own: parenthesised handles
      become link targets, every other handle a link, and every other
      character stays where it is. */
  lemma {:induction false} LinkRefsTokens(s: string)
    ensures LinkRefs(s) == Linked(Tokens(s))
    decreases |s|
  {
    if |s| > 0 {
      var p, k: nat;
      if ParenHandle(s) {
        var n := Run(s[2..]);
        p, k := Target(s[2..2 + n]), 3 + n;
        LinkRefsParen(s);
        TargetOk(s);
      } else if s[0] == '@' && Run(s[1..]) > 0 {
        var n := Run(s[1..]);
        p, k := Mention(s[1..1 + n]), 1 + n;
        LinkRefsMention(s);
        MentionOk(s);
      } else {
        p, k := Kept(s[0]), 1;
        LinkRefsKept(s);
        KeptOk(s);
      }
      LinkRefsTokens(s[k..]);
      LinkedCons(p, Tokens(s[k..]));
    }
  }

  /** The rewrite of pieces is the rewrite of the first and of the rest. */
  lemma LinkedCons(p: Piece, ts: seq<Piece>)
    ensures Linked([p] + ts) == LinkOf(p) + Linked(ts)
  {
    assert ([p] + ts)[1..] == ts;
  }

  /** The text of pieces starts with the first piece's first character. */
  lemma SourceHead(ps: seq<Piece>)
    requires |ps| > 0
    ensures Source(ps) == SourceOf(ps[0]) + Source(ps[1..])
    ensures |Source(ps)| > 0 && Source(ps)[0] == Head(ps[0])
  {
  }

  /** A parenthesised handle in front is cut off whole. */
  lemma FrontTarget(n: string, t: string)
    requires IsName(n)
    ensures Tokens("(@" + n + ")" + t) == [Target(n)] + Tokens(t)
  {
    var s := "(@" + n + ")" + t;
    assert s[2..] == n + (")" + t);
    RunOf(n, ")" + t);
    assert s[2..2 + |n|] == n && s[3 + |n|..] == t;
  }

  /** Any other handle in front, with nothing extending its name, is cut
      off whole. */
  lemma FrontMention(n: string, t: string)
    requires IsName(n) && (|t| == 0 || !IsRefChar(t[0]))
    ensures Tokens("@" + n + t) == [Mention(n)] + Tokens(t)
  {
    var s := "@" + n + t;
    assert s[1..] == n + t;
    RunOf(n, t);
    assert s[1..1 + |n|] == n && s[1 + |n|..] == t;
  }

  /** A character that starts no handle is cut off alone. */
  lemma FrontKept(c: char, t: string)
    requires c == '@' ==> |t| == 0 || !IsRefChar(t[0])
    requires c == '(' ==> !ParenHandle("(" + t)
    ensures Tokens([c] + t) == [Kept(c)] + Tokens(t)
  {
    var s := [c] + t;
    assert s[1..] == t;
    if c == '@' {
      RunOf([], t);
      assert [] + t == t;
    }
  }

  /** The first piece of valid pieces is the first piece `Tokens` cuts. */
  lemma FrontPiece(p: Piece, rest: seq<Piece>)
    requires PieceOk(p, rest) && Valid(rest)
    ensures Tokens(SourceOf(p) + Source(rest)) == [p] + Tokens(Source(rest))
  {
    var t := Source(rest);
    if |rest| > 0 {
      SourceHead(rest);
    }
    match p
    case Target(n) => FrontTarget(n, t);
    case Mention(n) => FrontMention(n, t);
    case Kept(c) => FrontKept(c, t);
  }

  /** Valid pieces are the only way to cut their text: `Tokens` gives them
      back. */
  lemma {:induction false} ValidUnique(ps: seq<Piece>)
    requires Valid(ps)
    ensures Tokens(Source(ps)) == ps
    decreases |ps|
  {
    if |ps| > 0 {
      SourceHead(ps);
      ValidUnique(ps[1..]);
      FrontPiece(ps[0], ps[1..]);
      assert ps == [ps[0]] + ps[1..];
    }
  }

  /** The link rewrite, stated on pieces: for any cutting of the text into
      pieces as the patterns pick them out, parenthesised handles become link
      targets, other handles links, and every other character stays, in
      order. Such a cutting always exists. */
  lemma LinkRefsPieces(s: string, ps: seq<Piece>)
    requires Valid(ps) && Source(ps) == s
    ensures LinkRefs(s) == Linked(ps)
  {
    ValidUnique(ps);
    LinkRefsTokens(s);
  }

  lemma PiecesExist(s: string)
    ensures Valid(Tokens(s)) && Source(Tokens(s)) == s
  {
    TokensValid(s);
    TokensSource(s);
  }

  /** Index of the first `c` in `s`. */
  function IndexOf(s: string, c: char): (r: Option<nat>)
    ensures r.None? <==> c !in s
    ensures r.Some? ==> r.value < |s| && s[r.value] == c && c !in s[..r.value]
  {
    if |s| == 0 then None
    else if s[0] == c then Some(0)
    else match IndexOf(s[1..], c)
      case None => None
      case Some(k) =>
        assert s[..k + 1] == [s[0]] + s[1..][..k];
        Some(k + 1)
  }

  /** Where the greedy `\s*` starting at `i` stops. */
  function SkipSpaces(s: string, i: nat): (j: nat)
    requires i <= |s|
    ensures i <= j <= |s|
    ensures forall k :: i <= k < j ==> IsSpace(s[k])
    ensures j < |s| ==> !IsSpace(s[j])
    decreases |s| - i
  {
    if i < |s| && IsSpace(s[i]) then SkipSpaces(s, i + 1) else i
  }

  /** Where the greedy `.*` starting at `i` stops. */
  function LineEnd(s: string, i: nat): (j: nat)
    requires i <= |s|
    ensures i <= j <= |s|
    ensures forall k :: i <= k < j ==> !IsLineTerminator(s[k])
    ensures j < |s| ==> IsLineTerminator(s[j])
    decreases |s| - i
  {
    if i < |s| && !IsLineTerminator(s[i]) then LineEnd(s, i + 1) else i
  }

  /** The match of `/#\s*(.*)/` with the first `#` at `k` and the capture
      `title` at `j`: spaces from `k + 1` to `j`, then the title up to the
      end of the line. */
  predicate TitleMatch(s: string, k: int, j: int, title: string) {
    0 <= k < j <= |s| && s[k] == '#' && '#' !in s[..k] &&
    (forall i :: k < i < j ==> IsSpace(s[i])) && (j == |s| || !IsSpace(s[j])) &&
    j + |title| <= |s| && title == s[j..j + |title|] &&
    (forall i :: j <= i < j + |title| ==> !IsLineTerminator(s[i])) &&
    (j + |title| == |s| || IsLineTerminator(s[j + |title|]))
  }

  /** The match is unique: the first `#`, all the whitespace after it and
      the rest of that line leave no choice. */
  lemma TitleMatchUnique(s: string, k: int, j: int, t: string, k': int, j': int, t': string)
    requires TitleMatch(s, k, j, t) && TitleMatch(s, k', j', t')
    ensures k == k' && j == j' && t == t'
  {
    assert forall i :: 0 <= i < k ==> s[..k][i] == s[i];
    assert forall i :: 0 <= i < k' ==> s[..k'][i] == s[i];
    assert k == k';
    assert j == j';
    assert |t| == |t'|;
  }

  /** `getTitle` of the zetteldocs and docs themes: the capture of
      `/#\s*(.*)/` on the markdown text, `"title unknown"` without a match.
      The `#` is the first one anywhere in the text; every whitespace
      character after it, line breaks included, is skipped; the title is the
      rest of that line. */
  function MarkdownTitle(s: string): (r: string)
    ensures '#' !in s ==> r == "title unknown"
    ensures '#' in s ==> forall k :: 0 <= k < |r| ==> !IsLineTerminator(r[k])
    ensures '#' in s ==> r == "" || !IsSpace(r[0])
    ensures '#' in s ==> exists k, j :: TitleMatch(s, k, j, r)
  {
    match IndexOf(s, '#')
    case None => "title unknown"
    case Some(k) =>
      var j := SkipSpaces(s, k + 1);
      var e := LineEnd(s, j);
      assert TitleMatch(s, k, j, s[j..e]);
      s[j..e]
  }

  /** Any match of the pattern gives the title `getTitle` returns. */
  lemma MarkdownTitleIsMatch(s: string, k: int, j: int, t: string)
    requires TitleMatch(s, k, j, t)
    ensures MarkdownTitle(s) == t
  {
    assert s[k] in s;
    var k', j' :| TitleMatch(s, k', j', MarkdownTitle(s));
    TitleMatchUnique(s, k, j, t, k', j', MarkdownTitle(s));
  }

  /** Whether the text at `i` begins with `http:` or `https:`. */
  predicate UrlStartAt(s: string, i: nat)
    requires i <= |s|
  {
    StartsWith(s[i..], "http:") || StartsWith(s[i..], "https:")
  }

  /** The leftmost position at or after `i` where an url starts. */
  function FirstUrlStart(s: string, i: nat): (r: Option<nat>)
    requires i <= |s|
    ensures r.Some? ==> i <= r.value <= |s| && UrlStartAt(s, r.value)
    ensures forall k :: i <= k <= |s| && (r.None? || k < r.value) ==> !UrlStartAt(s, k)
    decreases |s| - i
  {
    if UrlStartAt(s, i) then Some(i)
    else if i == |s| then None
    else FirstUrlStart(s, i + 1)
  }

  /** The scheme of an url at `i` lies on one line. */
  lemma UrlSchemeOnOneLine(s: string, i: nat)
    requires i <= |s| && UrlStartAt(s, i)
    ensures i + 5 <= LineEnd(s, i)
    ensures StartsWith(s[i..], "https:") ==> i + 6 <= LineEnd(s, i)
  {
    var t := s[i..];
    assert t[0] == 'h' && t[1] == 't' && t[2] == 't' && t[3] == 'p';
    assert t[4] == ':' || t[4] == 's';
    assert LineEnd(s, i) == LineEnd(s, i + 1) == LineEnd(s, i + 2) == LineEnd(s, i + 3) == LineEnd(s, i + 4);
    if t[4] == ':' {
      assert LineEnd(s, i + 4) == LineEnd(s, i + 5);
    } else {
      assert t[5] == ':';
      assert LineEnd(s, i + 4) == LineEnd(s, i + 5) == LineEnd(s, i + 6);
    }
  }

  /** The whole match of `/https?:.*` + `/` at `i`, running to the end of the
      line. */
  predicate UrlMatch(s: string, i: int, url: string) {
    0 <= i <= |s| && UrlStartAt(s, i) && (forall k :: 0 <= k < i ==> !UrlStartAt(s, k)) &&
    i + |url| <= |s| && url == s[i..i + |url|] && (i + |url| == |s| || IsLineTerminator(s[i + |url|]))
  }

  /** `text.match` of that expression: the text from the leftmost `http:`
      or `https:` to the end of its line, or nothing. */
  function FindUrl(s: string): (r: Option<string>)
    ensures r.None? <==> forall k :: 0 <= k <= |s| ==> !UrlStartAt(s, k)
    ensures r.Some? ==> StartsWith(r.value, "http:") || StartsWith(r.value, "https:")
    ensures r.Some? ==> forall k :: 0 <= k < |r.value| ==> !IsLineTerminator(r.value[k])
    ensures r.Some? ==> exists i :: UrlMatch(s, i, r.value)
  {
    match FirstUrlStart(s, 0)
    case None => None
    case Some(i) =>
      var e := LineEnd(s, i);
      UrlSchemeOnOneLine(s, i);
      assert s[i..e][..5] == s[i..][..5];
      assert StartsWith(s[i..], "https:") ==> s[i..e][..6] == s[i..][..6];
      assert UrlMatch(s, i, s[i..e]);
      Some(s[i..e])
  }
}
