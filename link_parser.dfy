/**
 * Extracting product links from the text of an uploaded link file (`parseFileContent`).
 * A JSON array of strings is tried first; otherwise, or when that yields nothing, the
 * text is split into lines on the first delimiter style it contains, each line is
 * trimmed, only product links are kept and repeated links are dropped.
 */
module LinkParser {
  import opened Wrappers
  import opened Text

  /** Every accepted link starts with this prefix. */
  const ProductPrefix: string := "https://www.fragrantica.com/perfume/"

  predicate IsProductLink(s: string) {
    StartsWith(s, ProductPrefix)
  }

  /** An element of a parsed JSON array: a string, or any other JSON value. */
  datatype JsonElement = JsonString(text: string) | JsonOther

  /**
   * What `JSON.parse(content)` produced. The parser itself is not modelled: its outcome
   * is an input. It threw, or gave a value that is not an array, or gave an array.
   */
  datatype JsonOutcome = ParseThrew | NotAnArray | JsonArray(elements: seq<JsonElement>)

  /** The trimmed content starts with `[` and ends with `]`. */
  predicate LooksLikeJsonArray(content: string) {
    var t := Trim(content);
    StartsWith(t, "[") && EndsWith(t, "]")
  }

  /** `ss.filter(s => s.startsWith(ProductPrefix))`. */
  function ProductLinks(ss: seq<string>): (r: seq<string>)
    ensures |r| <= |ss|
    ensures forall u :: u in r <==> u in ss && IsProductLink(u)
  {
    if ss == [] then []
    else (if IsProductLink(ss[0]) then [ss[0]] else []) + ProductLinks(ss[1..])
  }

  /** The filter keeps every occurrence of a product link and no occurrence of anything else. */
  lemma {:induction false} ProductLinksCounts(ss: seq<string>)
    ensures forall u :: multiset(ProductLinks(ss))[u] == if IsProductLink(u) then multiset(ss)[u] else 0
    decreases |ss|
  {
    if ss != [] {
      var x, rest := ss[0], ss[1..];
      ProductLinksCounts(rest);
      assert ss == [x] + rest;
      assert multiset(ss) == multiset{x} + multiset(rest);
      if IsProductLink(x) {
        assert ProductLinks(ss) == [x] + ProductLinks(rest);
        assert multiset(ProductLinks(ss)) == multiset{x} + multiset(ProductLinks(rest));
      } else {
        assert ProductLinks(ss) == ProductLinks(rest);
      }
    }
  }

  /** The filter works element by element, so it keeps the order of what it keeps. */
  lemma {:induction false} ProductLinksAppend(a: seq<string>, b: seq<string>)
    ensures ProductLinks(a + b) == ProductLinks(a) + ProductLinks(b)
    decreases |a|
  {
    if a == [] {
      assert a + b == b;
    } else {
      assert (a + b)[0] == a[0] && (a + b)[1..] == a[1..] + b;
      ProductLinksAppend(a[1..], b);
    }
  }

  predicate AllStrings(elements: seq<JsonElement>) {
    forall i :: 0 <= i < |elements| ==> elements[i].JsonString?
  }

  function Texts(elements: seq<JsonElement>): seq<string>
    requires AllStrings(elements)
  {
    seq(|elements|, i requires 0 <= i < |elements| => elements[i].text)
  }

  /**
   * The links the JSON attempt yields: the product links of an array of strings, in
   * order and with repetitions. Anything else yields none: the attempt is made only for
   * bracketed content, a parse failure or non-array is ignored, and a non-string element
   * makes `startsWith` throw inside the same `try`, which is ignored too.
   */
  function JsonLinks(content: string, parsed: JsonOutcome): seq<string> {
    if !LooksLikeJsonArray(content) then []
    else match parsed
      case JsonArray(elements) => if AllStrings(elements) then ProductLinks(Texts(elements)) else []
      case _ => []
  }

  /** The delimiter the line-splitting fallback uses, chosen once for the whole content. */
  datatype Delimiter = RealNewline | EscapedNewline | SlashN | WhitespaceRuns

  /** The first delimiter style that occurs: a newline, then `\n` written out, then `/n`. */
  function DelimiterOf(content: string): Delimiter {
    if Contains(content, "\n") then RealNewline
    else if Contains(content, "\\n") then EscapedNewline
    else if Contains(content, "/n") then SlashN
    else WhitespaceRuns
  }

  function Lines(content: string): seq<string> {
    match DelimiterOf(content)
    case RealNewline => Split(content, "\n")
    case EscapedNewline => Split(content, "\\n")
    case SlashN => Split(content, "/n")
    case WhitespaceRuns => SplitWs(content)
  }

  function TrimAll(lines: seq<string>): seq<string> {
    seq(|lines|, i requires 0 <= i < |lines| => Trim(lines[i]))
  }

  predicate NoDuplicates<T(==)>(s: seq<T>) {
    forall i, j :: 0 <= i < j < |s| ==> s[i] != s[j]
  }

  /**
   * `s.filter((x, i, arr) => arr.indexOf(x) === i)`: the element at index `i` is kept
   * exactly when it does not occur before `i`.
   */
  function Dedup(s: seq<string>): (r: seq<string>)
    ensures forall x :: x in r <==> x in s
    ensures NoDuplicates(r)
  {
    if s == [] then []
    else
      var init, last := s[..|s| - 1], s[|s| - 1];
      var kept := Dedup(init);
      if last in init then kept else kept + [last]
  }

  /** The links of the line-splitting fallback. */
  function LineLinks(content: string): seq<string> {
    Dedup(ProductLinks(TrimAll(Lines(content))))
  }

  /** The value `parseFileContent` resolves with. */
  function ParsedLinks(content: string, parsed: JsonOutcome): seq<string> {
    var urls := JsonLinks(content, parsed);
    if |urls| == 0 then LineLinks(content) else urls
  }

  /** `parseFileContent` once the file has been read: `urls` and `lines` reassigned through the if-chain. */
  method ParseFileContent(content: string, parsed: JsonOutcome) returns (urls: seq<string>)
    ensures urls == ParsedLinks(content, parsed)
    ensures forall u :: u in urls ==> IsProductLink(u)
  {
    urls := TryJsonArray(content, parsed);
    if |urls| == 0 {
      var lines := SplitLines(content);
      urls := Dedup(ProductLinks(TrimAll(lines)));
    }
    ParsedLinksAreProductLinks(content, parsed);
  }

  /** The JSON attempt of `parseFileContent`: `urls` stays empty unless an array of strings is parsed. */
  method TryJsonArray(content: string, parsed: JsonOutcome) returns (urls: seq<string>)
    ensures urls == JsonLinks(content, parsed)
  {
    urls := [];
    var trimmed := Trim(content);
    if StartsWith(trimmed, "[") && EndsWith(trimmed, "]") {
      match parsed {
        case JsonArray(elements) =>
          if AllStrings(elements) {
            urls := ProductLinks(Texts(elements));
          }
        case _ =>
      }
    }
  }

  /** The delimiter if-chain of `parseFileContent`. */
  method SplitLines(content: string) returns (lines: seq<string>)
    ensures lines == Lines(content)
  {
    if Contains(content, "\n") {
      lines := Split(content, "\n");
    } else if Contains(content, "\\n") {
      lines := Split(content, "\\n");
    } else if Contains(content, "/n") {
      lines := Split(content, "/n");
    } else {
      lines := SplitWs(content);
    }
  }

  /** Every link returned, from either branch, is a product link; no link is empty. */
  lemma ParsedLinksAreProductLinks(content: string, parsed: JsonOutcome)
    ensures forall u :: u in ParsedLinks(content, parsed) ==> IsProductLink(u) && |u| >= |ProductPrefix|
  {
  }

  /** `FirstIndex(s, x)`: where `x` occurs in `s` for the first time. */
  function FirstIndex<T(==)>(s: seq<T>, x: T): (k: nat)
    requires x in s
    ensures k < |s| && s[k] == x && x !in s[..k]
  {
    if s[0] == x then 0 else 1 + FirstIndex(s[1..], x)
  }

  lemma FirstIndexUnique<T>(s: seq<T>, x: T, k: nat)
    requires k < |s| && s[k] == x && x !in s[..k]
    ensures FirstIndex(s, x) == k
  {
  }

  /** Extending a sequence does not move the first occurrence of an element it already has. */
  lemma FirstIndexPrefix<T>(s: seq<T>, n: nat, x: T)
    requires n <= |s| && x in s[..n]
    ensures FirstIndex(s, x) == FirstIndex(s[..n], x)
  {
    var k := FirstIndex(s[..n], x);
    assert s[..n][..k] == s[..k];
    FirstIndexUnique(s, x, k);
  }

  /** The kept elements appear in the order of their first occurrences. */
  lemma {:induction false} DedupKeepsFirstOccurrenceOrder(s: seq<string>)
    ensures InFirstOccurrenceOrder(s, Dedup(s))
    decreases |s|
  {
    if s != [] {
      DedupKeepsFirstOccurrenceOrder(s[..|s| - 1]);
      DedupStepKeepsOrder(s);
    }
  }

  /** One more element keeps the order, given the order for the elements before it. */
  lemma DedupStepKeepsOrder(s: seq<string>)
    requires s != [] && InFirstOccurrenceOrder(s[..|s| - 1], Dedup(s[..|s| - 1]))
    ensures InFirstOccurrenceOrder(s, Dedup(s))
  {
    var n := |s| - 1;
    var kept := Dedup(s[..n]);
    OrderInPrefix(s, n, kept);
    if s[n] in s[..n] {
      assert Dedup(s) == kept;
    } else {
      FirstIndexUnique(s, s[n], n);
      AppendLatest(s, kept, s[n]);
      assert Dedup(s) == kept + [s[n]];
    }
  }

  /** `r` lists elements of `s` in the order of their first occurrences in `s`. */
  predicate InFirstOccurrenceOrder(s: seq<string>, r: seq<string>)
    requires forall x :: x in r ==> x in s
  {
    forall i, j :: 0 <= i < j < |r| ==> FirstIndex(s, r[i]) < FirstIndex(s, r[j])
  }

  /** Order by first occurrence in a prefix is order by first occurrence in the whole sequence. */
  lemma OrderInPrefix(s: seq<string>, n: nat, kept: seq<string>)
    requires n <= |s| && forall x :: x in kept ==> x in s[..n]
    requires InFirstOccurrenceOrder(s[..n], kept)
    ensures forall x :: x in kept ==> x in s && FirstIndex(s, x) < n
    ensures InFirstOccurrenceOrder(s, kept)
  {
    forall x | x in kept ensures x in s && FirstIndex(s, x) == FirstIndex(s[..n], x) {
      FirstIndexPrefix(s, n, x);
    }
  }

  /** Appending the element whose first occurrence is last keeps the order. */
  lemma AppendLatest(s: seq<string>, kept: seq<string>, last: string)
    requires last in s && FirstIndex(s, last) == |s| - 1
    requires forall x :: x in kept ==> x in s && FirstIndex(s, x) < |s| - 1
    requires InFirstOccurrenceOrder(s, kept)
    ensures InFirstOccurrenceOrder(s, kept + [last])
  {
    var r := kept + [last];
    forall i, j | 0 <= i < j < |r| ensures FirstIndex(s, r[i]) < FirstIndex(s, r[j]) {
      assert r[i] == kept[i] && r[i] in kept;
      if j < |kept| {
        assert r[j] == kept[j];
      }
    }
  }

  /**
   * The fallback's result: no repeated link, exactly the product links among the
   * trimmed lines, in the order in which they first occur there.
   */
  lemma LineLinksShape(content: string)
    ensures var candidates := ProductLinks(TrimAll(Lines(content)));
      var r := LineLinks(content);
      && NoDuplicates(r)
      && (forall u :: u in r <==> u in candidates)
      && (forall i, j :: 0 <= i < j < |r| ==> FirstIndex(candidates, r[i]) < FirstIndex(candidates, r[j]))
  {
    DedupKeepsFirstOccurrenceOrder(ProductLinks(TrimAll(Lines(content))));
  }

  /** Every link of the fallback is the trim of some line of the split content. */
  lemma LineLinksComeFromLines(content: string)
    ensures forall u :: u in LineLinks(content) ==> exists line :: line in Lines(content) && u == Trim(line)
  {
    var lines := Lines(content);
    var trimmed := TrimAll(lines);
    forall u | u in LineLinks(content) ensures exists line :: line in lines && u == Trim(line) {
      assert u in trimmed;
      var i :| 0 <= i < |trimmed| && trimmed[i] == u;
      assert lines[i] in lines;
    }
  }

  /**
   * The delimiter priority. Content with a newline is split on newlines only, whatever
   * else it contains; otherwise on `\n` written out, then on `/n`, then on whitespace
   * runs. Joining the lines with the delimiter gives the content back; for whitespace
   * runs, joining with single spaces gives the content with each run collapsed to one
   * space. No line contains the delimiter it was split on.
   */
  lemma DelimiterPriority(content: string)
    ensures Contains(content, "\n") ==>
      Lines(content) == Split(content, "\n") && Join(Lines(content), "\n") == content
    ensures !Contains(content, "\n") && Contains(content, "\\n") ==>
      Lines(content) == Split(content, "\\n") && Join(Lines(content), "\\n") == content
    ensures !Contains(content, "\n") && !Contains(content, "\\n") && Contains(content, "/n") ==>
      Lines(content) == Split(content, "/n") && Join(Lines(content), "/n") == content
    ensures !Contains(content, "\n") && !Contains(content, "\\n") && !Contains(content, "/n") ==>
      Lines(content) == SplitWs(content) && Join(Lines(content), " ") == CollapseWs(content)
    ensures forall line :: line in Lines(content) ==>
      !Contains(line, "\n") && (DelimiterOf(content) == EscapedNewline ==> !Contains(line, "\\n"))
      && (DelimiterOf(content) == SlashN ==> !Contains(line, "/n"))
  {
    match DelimiterOf(content)
    case RealNewline =>
      JoinSplit(content, "\n");
      SplitPiecesAvoidDelimiter(content, "\n");
    case EscapedNewline =>
      JoinSplit(content, "\\n");
      SplitPiecesAvoidDelimiter(content, "\\n");
      PiecesKeepAbsence(content, "\\n", "\n");
    case SlashN =>
      JoinSplit(content, "/n");
      SplitPiecesAvoidDelimiter(content, "/n");
      PiecesKeepAbsence(content, "/n", "\n");
    case WhitespaceRuns =>
      JoinSplitWs(content);
      forall line | line in SplitWs(content) ensures !Contains(line, "\n") {
        SpacelessHasNoNewline(line);
      }
  }

  /** A piece of the split content cannot contain something the content does not contain. */
  lemma PiecesKeepAbsence(content: string, d: string, e: string)
    requires d != [] && !Contains(content, e)
    ensures forall p :: p in Split(content, d) ==> !Contains(p, e)
  {
    forall p | p in Split(content, d) ensures !Contains(p, e) {
      PieceIsInfix(content, d, p);
      var i :| OccursAt(content, p, i);
      InfixOccurrences(content, p, i, e);
    }
  }

  /** Every occurrence inside an infix is an occurrence in the whole string. */
  lemma InfixOccurrences(s: string, p: string, i: int, e: string)
    requires OccursAt(s, p, i)
    ensures forall j :: OccursAt(p, e, j) ==> OccursAt(s, e, i + j)
  {
    forall j | OccursAt(p, e, j) ensures OccursAt(s, e, i + j) {
      forall t | 0 <= t < |e| ensures s[i + j + t] == e[t] {
        assert e[t] == p[j..j + |e|][t] == p[j + t];
        assert p[j + t] == s[i..i + |p|][j + t];
      }
      assert s[i + j..i + j + |e|] == e;
    }
  }

  lemma PieceIsInfix(s: string, d: string, p: string)
    requires d != [] && p in Split(s, d)
    ensures exists i :: OccursAt(s, p, i)
  {
    JoinSplit(s, d);
    PieceOfJoin(Split(s, d), d, p);
  }

  /** Every joined piece occurs in the joined string. */
  lemma {:induction false} PieceOfJoin(ws: seq<string>, d: string, p: string)
    requires p in ws
    ensures exists i :: OccursAt(Join(ws, d), p, i)
    decreases |ws|
  {
    if p == ws[0] {
      var r := if |ws| == 1 then "" else d + Join(ws[1..], d);
      assert Join(ws, d) == p + r;
      assert (p + r)[0..|p|] == p;
      assert OccursAt(Join(ws, d), p, 0);
    } else {
      assert p in ws[1..];
      PieceOfJoin(ws[1..], d, p);
      var i :| OccursAt(Join(ws[1..], d), p, i);
      var m := |ws[0] + d|;
      assert Join(ws, d)[m..] == Join(ws[1..], d);
      SuffixOccurrence(Join(ws, d), m, p, i);
    }
  }

  /** An occurrence in a suffix of `s` is an occurrence in `s`, shifted by where the suffix starts. */
  lemma SuffixOccurrence(s: string, m: nat, p: string, i: int)
    requires m <= |s| && OccursAt(s[m..], p, i)
    ensures OccursAt(s, p, m + i)
  {
    assert s[m + i..m + i + |p|] == s[m..][i..i + |p|];
  }

  /** The JSON attempt is made only for content whose trimmed form is bracketed. */
  lemma JsonOnlyWhenBracketed(content: string, parsed: JsonOutcome)
    requires !LooksLikeJsonArray(content)
    ensures ParsedLinks(content, parsed) == LineLinks(content)
  {
  }

  /** A non-empty filtered array is the result as it is, repetitions included. */
  lemma JsonArrayReturnedAsIs(content: string, elements: seq<JsonElement>)
    requires LooksLikeJsonArray(content) && AllStrings(elements)
    requires ProductLinks(Texts(elements)) != []
    ensures ParsedLinks(content, JsonArray(elements)) == ProductLinks(Texts(elements))
  {
  }

  /**
   * A parsed array of strings with a product link yields every occurrence of every product
   * link in it, in the array's order: the filter is applied piece by piece and keeps
   * repetitions.
   */
  lemma JsonKeepsEveryOccurrence(content: string, elements: seq<JsonElement>, a: seq<string>, b: seq<string>)
    requires LooksLikeJsonArray(content) && AllStrings(elements)
    requires Texts(elements) == a + b && ProductLinks(a + b) != []
    ensures ParsedLinks(content, JsonArray(elements)) == ProductLinks(a) + ProductLinks(b)
    ensures forall u :: multiset(ParsedLinks(content, JsonArray(elements)))[u] == (if IsProductLink(u) then multiset(Texts(elements))[u] else 0)
  {
    JsonArrayReturnedAsIs(content, elements);
    ProductLinksAppend(a, b);
    ProductLinksCounts(Texts(elements));
  }

  /**
   * The JSON attempt falls through to line splitting when parsing threw, gave a non-array,
   * gave an array with a non-string element, or gave no product link.
   */
  lemma JsonFallsThrough(content: string, parsed: JsonOutcome)
    requires parsed.ParseThrew? || parsed.NotAnArray?
      || (parsed.JsonArray? && !AllStrings(parsed.elements))
      || (parsed.JsonArray? && AllStrings(parsed.elements) && ProductLinks(Texts(parsed.elements)) == [])
    ensures ParsedLinks(content, parsed) == LineLinks(content)
  {
  }

  /** Unlike the fallback, the JSON branch does not drop a repeated link. */
  lemma JsonKeepsRepeats(content: string, u: string, es: seq<JsonElement>)
    requires LooksLikeJsonArray(content) && IsProductLink(u)
    requires es == [JsonString(u), JsonString(u)]
    ensures ParsedLinks(content, JsonArray(es)) == [u, u]
  {
    TextsOfRepeat(u, es);
    ProductLinksOfRepeat(u);
    JsonArrayReturnedAsIs(content, es);
  }

  lemma TextsOfRepeat(u: string, es: seq<JsonElement>)
    requires es == [JsonString(u), JsonString(u)]
    ensures AllStrings(es) && Texts(es) == [u, u]
  {
  }

  lemma ProductLinksOfRepeat(u: string)
    requires IsProductLink(u)
    ensures ProductLinks([u, u]) == [u, u]
  {
    assert [u, u][1..] == [u];
    assert [u][1..] == [];
  }

  lemma SpacelessHasNoNewline(s: string)
    requires Spaceless(s)
    ensures !Contains(s, "\n")
  {
    SingleCharOccurs(s, '\n');
  }

  lemma TrimSpaceless(s: string)
    requires Spaceless(s)
    ensures Trim(s) == s
  {
  }

  /** Three newline-separated whitespace-free lines split back into those lines. */
  lemma LinesOfThree(a: string, b: string, c: string)
    requires Spaceless(a) && Spaceless(b) && Spaceless(c)
    ensures Lines(a + "\n" + b + "\n" + c) == [a, b, c]
  {
    var content := a + "\n" + b + "\n" + c;
    SpacelessHasNoNewline(a);
    SpacelessHasNoNewline(b);
    SpacelessHasNoNewline(c);
    assert OccursAt(content, "\n", |a|) by {
      assert content[|a|..|a| + 1] == "\n";
    }
    assert DelimiterOf(content) == RealNewline;
    assert content == a + "\n" + (b + "\n" + c);
    SplitCons(a, "\n", b + "\n" + c);
    SplitCons(b, "\n", c);
  }

  lemma TrimAllSpaceless(a: string, b: string, c: string)
    requires Spaceless(a) && Spaceless(b) && Spaceless(c)
    ensures TrimAll([a, b, c]) == [a, b, c]
  {
    var lines := [a, b, c];
    forall i | 0 <= i < |lines|
      ensures Trim(lines[i]) == lines[i]
    {
      TrimSpaceless(lines[i]);
    }
    TrimAllFixed(lines);
  }

  /** Lines that trimming leaves alone are left alone by trimming them all. */
  lemma TrimAllFixed(lines: seq<string>)
    requires forall i :: 0 <= i < |lines| ==> Trim(lines[i]) == lines[i]
    ensures TrimAll(lines) == lines
  {
  }

  lemma ProductLinksOfRepeatAndForeign(u: string, x: string)
    requires IsProductLink(u) && !IsProductLink(x)
    ensures ProductLinks([u, u, x]) == [u, u]
  {
    assert [x][1..] == [];
    assert ProductLinks([x]) == [];
    assert [u, x][1..] == [x];
    assert ProductLinks([u, x]) == [u];
    assert [u, u, x][1..] == [u, x];
  }

  lemma DedupPair(u: string)
    ensures Dedup([u, u]) == [u]
  {
    assert [u][..0] == [];
    assert Dedup([u]) == [u];
    assert [u, u][..1] == [u];
  }

  /**
   * A newline-separated file that repeats one product link and adds a foreign link
   * yields that product link once.
   */
  lemma RepeatedAndForeignLinks(u: string, x: string)
    requires IsProductLink(u) && !IsProductLink(x) && Spaceless(u) && Spaceless(x)
    ensures ParsedLinks(u + "\n" + u + "\n" + x, ParseThrew) == [u]
  {
    LinesOfThree(u, u, x);
    TrimAllSpaceless(u, u, x);
    ProductLinksOfRepeatAndForeign(u, x);
    DedupPair(u);
  }
}
