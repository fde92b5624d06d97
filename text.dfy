/**
 * ASCII models of the JavaScript string operations the bulk-import component relies on:
 * `toLowerCase`/`toUpperCase`, `startsWith`/`endsWith`, `includes`, `split` with a literal
 * delimiter, `split(/\s+/)`, `join` and `trim`.
 */
module Text {
  import opened Wrappers

  /** The characters matched by `\s` and removed by `trim`, restricted to ASCII. */
  predicate IsSpace(c: char) {
    c == ' ' || c == '\t' || c == '\n' || c == '\r' || c == '\U{B}' || c == '\U{C}'
  }

  function Lower(c: char): char {
    if 'A' <= c <= 'Z' then (c as int + 32) as char else c
  }

  function Upper(c: char): char {
    if 'a' <= c <= 'z' then (c as int - 32) as char else c
  }

  function LowerStr(s: string): string {
    seq(|s|, i requires 0 <= i < |s| => Lower(s[i]))
  }

  predicate StartsWith(s: string, p: string) {
    |p| <= |s| && s[..|p|] == p
  }

  predicate EndsWith(s: string, p: string) {
    |p| <= |s| && s[|s| - |p|..] == p
  }

  /** `d` occurs in `s` starting at index `j`. */
  predicate OccursAt(s: string, d: string, j: int) {
    0 <= j && j + |d| <= |s| && s[j..j + |d|] == d
  }

  lemma OccursAtTail(s: string, d: string, j: nat)
    requires |s| > 0
    ensures OccursAt(s, d, j + 1) <==> OccursAt(s[1..], d, j)
  {
    if j + 1 + |d| <= |s| {
      assert s[1..][j..j + |d|] == s[j + 1..j + 1 + |d|];
    }
  }

  /** A one-character string occurs exactly where that character is. */
  lemma SingleCharOccurs(s: string, c: char)
    ensures forall j :: OccursAt(s, [c], j) <==> 0 <= j < |s| && s[j] == c
  {
    forall j | 0 <= j < |s| ensures s[j..j + 1] == [s[j]] {
    }
  }

  /** `s.indexOf(d)`: the first index at which `d` occurs, if any. */
  function IndexOf(s: string, d: string): (r: Option<nat>)
    ensures r.Some? ==> OccursAt(s, d, r.value)
    ensures forall j :: 0 <= j && (r.None? || j < r.value) ==> !OccursAt(s, d, j)
    decreases |s|
  {
    if |s| < |d| then None
    else if s[..|d|] == d then Some(0)
    else
      var rest := IndexOf(s[1..], d);
      assert forall j :: 1 <= j && (rest.None? || j - 1 < rest.value) ==> !OccursAt(s, d, j) by {
        forall j | 1 <= j && (rest.None? || j - 1 < rest.value) ensures !OccursAt(s, d, j) {
          OccursAtTail(s, d, j - 1);
        }
      }
      match rest
      case None => None
      case Some(k) => OccursAtTail(s, d, k); Some(k + 1)
  }

  /** `s.includes(d)`. */
  predicate Contains(s: string, d: string) {
    IndexOf(s, d).Some?
  }

  /** `s.split(d)` for a non-empty literal delimiter `d`. */
  function Split(s: string, d: string): (r: seq<string>)
    requires d != []
    ensures |r| >= 1
    decreases |s|
  {
    match IndexOf(s, d)
    case None => [s]
    case Some(k) => [s[..k]] + Split(s[k + |d|..], d)
  }

  /** `ws.join(d)`. */
  function Join(ws: seq<string>, d: string): string {
    if |ws| == 0 then "" else if |ws| == 1 then ws[0] else ws[0] + d + Join(ws[1..], d)
  }

  /** Splitting and joining again with the same delimiter gives back the string. */
  lemma {:induction false} JoinSplit(s: string, d: string)
    requires d != []
    ensures Join(Split(s, d), d) == s
    decreases |s|
  {
    match IndexOf(s, d)
    case None =>
    case Some(k) =>
      var rest := s[k + |d|..];
      var ws := Split(s, d);
      assert |ws| >= 2 && ws[0] == s[..k] && ws[1..] == Split(rest, d) by {
        assert ws == [s[..k]] + Split(rest, d);
      }
      calc {
        Join(ws, d);
        ws[0] + d + Join(ws[1..], d);
        { JoinSplit(rest, d); }
        s[..k] + d + rest;
        { assert s[k..k + |d|] == d; }
        s[..k] + s[k..k + |d|] + s[k + |d|..];
        s;
      }
  }

  /** Splitting at the first occurrence of the delimiter: the piece before it, then the split of the rest. */
  lemma SplitAtFirst(s: string, d: string, k: nat)
    requires d != [] && IndexOf(s, d) == Some(k)
    ensures Split(s, d) == [s[..k]] + Split(s[k + |d|..], d)
  {
  }

  /** No piece of `s.split(d)` contains the delimiter. */
  lemma {:induction false} SplitPiecesAvoidDelimiter(s: string, d: string)
    requires d != []
    ensures forall p :: p in Split(s, d) ==> !Contains(p, d)
    decreases |s|
  {
    match IndexOf(s, d)
    case None =>
      assert Split(s, d) == [s];
    case Some(k) =>
      var rest := s[k + |d|..];
      var pieces := Split(rest, d);
      SplitAtFirst(s, d, k);
      assert !Contains(s[..k], d) by {
        BeforeFirstOccurrence(s, d, k);
      }
      assert forall p :: p in pieces ==> !Contains(p, d) by {
        SplitPiecesAvoidDelimiter(rest, d);
      }
      ConsPieces(s[..k], pieces, d);
  }

  lemma ConsPieces(first: string, pieces: seq<string>, d: string)
    requires !Contains(first, d) && forall p :: p in pieces ==> !Contains(p, d)
    ensures forall p :: p in [first] + pieces ==> !Contains(p, d)
  {
  }

  /** The text before the first occurrence of `d` does not contain `d`. */
  lemma BeforeFirstOccurrence(s: string, d: string, k: nat)
    requires d != [] && IndexOf(s, d) == Some(k)
    ensures !Contains(s[..k], d)
  {
    PrefixOccurrences(s, k, d);
  }

  /** An occurrence inside a prefix is an occurrence in the whole string, ending within the prefix. */
  lemma PrefixOccurrences(s: string, k: nat, d: string)
    requires k <= |s| && d != []
    ensures forall j :: OccursAt(s[..k], d, j) ==> OccursAt(s, d, j) && j < k
  {
    forall j | OccursAt(s[..k], d, j) ensures OccursAt(s, d, j) && j < k {
      assert s[..k][j..j + |d|] == s[j..j + |d|];
    }
  }

  /** Splitting on a one-character delimiter peels off a first piece that does not contain it. */
  lemma SplitCons(a: string, d: string, b: string)
    requires |d| == 1 && !Contains(a, d)
    ensures Split(a + d + b, d) == [a] + Split(b, d)
  {
    var s := a + d + b;
    assert OccursAt(s, d, |a|) by {
      assert s[|a|..|a| + |d|] == d;
    }
    var k := IndexOf(s, d).value;
    if k < |a| {
      assert s[k..k + 1] == a[k..k + 1];
      assert OccursAt(a, d, k);
      assert false;
    }
    assert s[k + |d|..] == b;
    assert s[..k] == a;
  }

  /** Index of the first whitespace character of `s`, or `|s|` when there is none. */
  function SpaceIndex(s: string): (k: nat)
    ensures k <= |s|
    ensures forall j :: 0 <= j < k ==> !IsSpace(s[j])
    ensures k < |s| ==> IsSpace(s[k])
  {
    if |s| == 0 then 0 else if IsSpace(s[0]) then 0 else 1 + SpaceIndex(s[1..])
  }

  /** `s` with its leading whitespace removed (`trimStart`). */
  function SkipSpaces(s: string): (r: string)
    ensures |r| <= |s| && r == s[|s| - |r|..]
    ensures |s| > 0 && IsSpace(s[0]) ==> |r| < |s|
    ensures r == [] || !IsSpace(r[0])
    ensures forall j :: 0 <= j < |s| - |r| ==> IsSpace(s[j])
  {
    if |s| > 0 && IsSpace(s[0]) then
      var r := SkipSpaces(s[1..]);
      assert s[1..][|s| - 1 - |r|..] == s[|s| - |r|..];
      assert forall j :: 1 <= j < |s| - |r| ==> s[j] == s[1..][j - 1];
      r
    else s
  }

  /** `s` with its trailing whitespace removed (`trimEnd`). */
  function SkipTrailingSpaces(s: string): (r: string)
    ensures |r| <= |s| && r == s[..|r|]
    ensures r == [] || !IsSpace(r[|r| - 1])
    ensures forall j :: |r| <= j < |s| ==> IsSpace(s[j])
  {
    if |s| > 0 && IsSpace(s[|s| - 1]) then
      var r := SkipTrailingSpaces(s[..|s| - 1]);
      assert s[..|s| - 1][..|r|] == s[..|r|];
      assert forall j :: |r| <= j < |s| - 1 ==> s[j] == s[..|s| - 1][j];
      r
    else s
  }

  /** `s.trim()`: neither end of the result is whitespace. */
  function Trim(s: string): (r: string)
    ensures r == [] || (!IsSpace(r[0]) && !IsSpace(r[|r| - 1]))
  {
    SkipSpaces(SkipTrailingSpaces(s))
  }

  /** `r` is the slice of `s` at `a`, and everything of `s` outside it is whitespace. */
  predicate SliceWithin(s: string, r: string, a: int) {
    && 0 <= a && a + |r| <= |s| && r == s[a..a + |r|]
    && (forall j :: 0 <= j < a ==> IsSpace(s[j]))
    && (forall j :: a + |r| <= j < |s| ==> IsSpace(s[j]))
  }

  /** Trimming removes whitespace from both ends and nothing else. */
  lemma TrimIsSlice(s: string)
    ensures exists a :: SliceWithin(s, Trim(s), a)
  {
    var t := SkipTrailingSpaces(s);
    var r := SkipSpaces(t);
    var a := |t| - |r|;
    assert r == Trim(s);
    assert r == s[a..a + |r|] by {
      assert t[a..] == s[a..|t|];
    }
    assert forall j :: 0 <= j < a ==> IsSpace(s[j]) by {
      forall j | 0 <= j < a ensures IsSpace(s[j]) {
        assert s[j] == t[j];
      }
    }
    assert SliceWithin(s, r, a);
  }

  /** A string none of whose characters is whitespace. */
  predicate Spaceless(s: string) {
    forall j :: 0 <= j < |s| ==> !IsSpace(s[j])
  }

  /** `s.split(/\s+/)`: the pieces between maximal runs of whitespace. */
  function SplitWs(s: string): (r: seq<string>)
    ensures |r| >= 1
    ensures forall p, i :: p in r && 0 <= i < |p| ==> !IsSpace(p[i])
    decreases |s|
  {
    var k := SpaceIndex(s);
    if k == |s| then [s]
    else [s[..k]] + SplitWs(SkipSpaces(s[k..]))
  }

  /**
   * `s` with every maximal run of whitespace replaced by one space, read left to right;
   * `afterSpace` says whether the previous character was whitespace.
   */
  function Collapse(s: string, afterSpace: bool): string
    decreases |s|
  {
    if s == [] then []
    else if IsSpace(s[0]) then (if afterSpace then [] else [' ']) + Collapse(s[1..], true)
    else [s[0]] + Collapse(s[1..], false)
  }

  function CollapseWs(s: string): string {
    Collapse(s, false)
  }

  /** Joining the pieces of `split(/\s+/)` with single spaces collapses each whitespace run. */
  lemma {:induction false} JoinSplitWs(s: string)
    ensures Join(SplitWs(s), " ") == CollapseWs(s)
    decreases |s|
  {
    var k := SpaceIndex(s);
    if k == |s| {
      SplitWsWhole(s);
    } else {
      var first, rest := s[..k], SkipSpaces(s[k..]);
      SplitWsAt(s, k);
      JoinCons(first, SplitWs(rest), " ");
      JoinSplitWs(rest);
      CollapseAt(s, k);
    }
  }

  /** Text with no whitespace is one piece, and collapsing leaves it as it is. */
  lemma SplitWsWhole(s: string)
    requires SpaceIndex(s) == |s|
    ensures Join(SplitWs(s), " ") == CollapseWs(s)
  {
    assert SplitWs(s) == [s];
    assert s == s + [];
    CollapseSpaceless(s, []);
  }

  /** `split(/\s+/)` at the first whitespace character `k`. */
  lemma SplitWsAt(s: string, k: nat)
    requires k == SpaceIndex(s) && k < |s|
    ensures SplitWs(s) == [s[..k]] + SplitWs(SkipSpaces(s[k..]))
  {
  }

  /** Collapsing at the first whitespace character `k`. */
  lemma CollapseAt(s: string, k: nat)
    requires k == SpaceIndex(s) && k < |s|
    ensures CollapseWs(s) == s[..k] + [' '] + CollapseWs(SkipSpaces(s[k..]))
  {
    CollapsePrefix(s, k);
    CollapseRun(s[k..]);
  }

  /** The whitespace-free text before the first whitespace character is copied unchanged. */
  lemma CollapsePrefix(s: string, k: nat)
    requires k == SpaceIndex(s)
    ensures CollapseWs(s) == s[..k] + Collapse(s[k..], false)
  {
    var a, t := s[..k], s[k..];
    assert Spaceless(a) by {
      forall j | 0 <= j < |a| ensures !IsSpace(a[j]) {
        assert a[j] == s[j];
      }
    }
    assert a + t == s;
    CollapseSpaceless(a, t);
  }

  /** `[a, ...ws].join(d)` for a non-empty `ws`. */
  lemma JoinCons(a: string, ws: seq<string>, d: string)
    requires |ws| >= 1
    ensures Join([a] + ws, d) == a + d + Join(ws, d)
  {
    assert ([a] + ws)[0] == a && ([a] + ws)[1..] == ws;
  }

  /** A whitespace-free prefix is copied unchanged. */
  lemma {:induction false} CollapseSpaceless(a: string, t: string)
    requires Spaceless(a)
    ensures Collapse(a + t, false) == a + Collapse(t, false)
    decreases |a|
  {
    if a == [] {
      assert a + t == t;
    } else {
      assert (a + t)[0] == a[0] && (a + t)[1..] == a[1..] + t;
      assert Spaceless(a[1..]) by {
        forall j | 0 <= j < |a[1..]| ensures !IsSpace(a[1..][j]) {
          assert a[1..][j] == a[j + 1];
        }
      }
      CollapseSpaceless(a[1..], t);
      assert a == [a[0]] + a[1..];
    }
  }

  /** A run of whitespace becomes one space, followed by the collapse of what comes after it. */
  lemma CollapseRun(t: string)
    requires t != [] && IsSpace(t[0])
    ensures Collapse(t, false) == [' '] + Collapse(SkipSpaces(t), false)
  {
    assert Collapse(t, false) == [' '] + Collapse(t[1..], true);
    assert SkipSpaces(t) == SkipSpaces(t[1..]);
    SkipAfterSpace(t[1..]);
  }

  /** After whitespace, more whitespace adds nothing. */
  lemma {:induction false} SkipAfterSpace(u: string)
    ensures Collapse(u, true) == Collapse(SkipSpaces(u), false)
    decreases |u|
  {
    if u != [] && IsSpace(u[0]) {
      SkipAfterSpace(u[1..]);
    }
  }
}
