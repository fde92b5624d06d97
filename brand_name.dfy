/**
 * Deriving a brand label from the name of an uploaded link file (`extractBrandName`):
 * drop the extension, drop one known suffix, turn hyphens into spaces and title-case
 * every space-separated word.
 */
module BrandName {
  import opened Wrappers
  import opened Text

  /** The suffixes that are stripped from a file name, in the order they are tried. */
  const Suffixes: seq<string> :=
    ["-perfumes", "-perfume", "-fragrances", "-fragrance", "-links", "-urls", "-list", "-collection"]

  /** `s.lastIndexOf(c)`, which is -1 when `c` does not occur. */
  function LastIndexOf(s: string, c: char): (r: int)
    ensures -1 <= r < |s|
    ensures r >= 0 ==> s[r] == c
    ensures forall j :: r < j < |s| ==> s[j] != c
  {
    if |s| == 0 then -1
    else if s[|s| - 1] == c then |s| - 1
    else LastIndexOf(s[..|s| - 1], c)
  }

  /**
   * The file name without its extension. It is cut at the last `.`, but only when that
   * `.` is not the first character; a name with no `.` after its first character is kept.
   */
  function StripExtension(filename: string): (r: string)
    ensures |r| <= |filename| && r == filename[..|r|]
    ensures |r| < |filename| ==>
      0 < |r| && filename[|r|] == '.' && forall j :: |r| < j < |filename| ==> filename[j] != '.'
    ensures |r| == |filename| ==> forall j :: 0 < j < |filename| ==> filename[j] != '.'
  {
    var dot := LastIndexOf(filename, '.');
    if dot > 0 then filename[..dot] else filename
  }

  /** `name.toLowerCase().endsWith(suffix.toLowerCase())`. */
  predicate EndsWithIgnoringCase(name: string, suffix: string) {
    EndsWith(LowerStr(name), LowerStr(suffix))
  }

  /** The position of the first suffix, from position `i` of the list on, that `name` ends with. */
  function MatchFrom(name: string, i: nat): (r: Option<nat>)
    requires i <= |Suffixes|
    ensures r.Some? ==> i <= r.value < |Suffixes| && EndsWithIgnoringCase(name, Suffixes[r.value])
    ensures forall j :: i <= j < |Suffixes| && (r.None? || j < r.value) ==>
      !EndsWithIgnoringCase(name, Suffixes[j])
    decreases |Suffixes| - i
  {
    if i == |Suffixes| then None
    else if EndsWithIgnoringCase(name, Suffixes[i]) then Some(i)
    else MatchFrom(name, i + 1)
  }

  /** Suffix `k` is the first one in the list that `name` ends with. */
  predicate IsFirstMatch(name: string, k: nat) {
    && k < |Suffixes|
    && EndsWithIgnoringCase(name, Suffixes[k])
    && forall j :: 0 <= j < k ==> !EndsWithIgnoringCase(name, Suffixes[j])
  }

  /**
   * `name` without the first suffix of the list that it ends with, ignoring case;
   * at most one suffix is removed, and a name that ends with none is kept.
   */
  function StripSuffix(name: string): (r: string)
    ensures (forall k :: 0 <= k < |Suffixes| ==> !EndsWithIgnoringCase(name, Suffixes[k])) ==> r == name
    ensures forall k: nat :: IsFirstMatch(name, k) ==> |Suffixes[k]| <= |name| && r == name[..|name| - |Suffixes[k]|]
  {
    match MatchFrom(name, 0)
    case None => name
    case Some(k) => name[..|name| - |Suffixes[k]|]
  }

  /** `s.replace(/-/g, ' ')`. */
  function HyphensToSpaces(s: string): string {
    seq(|s|, i requires 0 <= i < |s| => if s[i] == '-' then ' ' else s[i])
  }

  /** `word.charAt(0).toUpperCase() + word.slice(1).toLowerCase()`. */
  function TitleWord(word: string): string {
    if word == [] then [] else [Upper(word[0])] + LowerStr(word[1..])
  }

  function TitleWords(words: seq<string>): seq<string> {
    seq(|words|, i requires 0 <= i < |words| => TitleWord(words[i]))
  }

  /** `s.split(' ').map(TitleWord).join(' ')`. */
  function TitleCase(s: string): string {
    Join(TitleWords(Split(s, " ")), " ")
  }

  /** The brand label for a file name, as in `extractBrandName` (an empty name gives `''`). */
  function BrandNameOf(filename: string): string {
    if filename == "" then ""
    else TitleCase(HyphensToSpaces(StripSuffix(StripExtension(filename))))
  }

  /** `extractBrandName`: the same steps, with the suffix loop that stops at the first match. */
  method ExtractBrandName(filename: string) returns (brandName: string)
    ensures brandName == BrandNameOf(filename)
  {
    if filename == "" {
      return "";
    }
    var dotIdx := LastIndexOf(filename, '.');
    var nameWithoutExt := if dotIdx > 0 then filename[..dotIdx] else filename;
    brandName := nameWithoutExt;
    var i := 0;
    while i < |Suffixes|
      invariant 0 <= i <= |Suffixes|
      invariant brandName == nameWithoutExt
      invariant MatchFrom(nameWithoutExt, 0) == MatchFrom(nameWithoutExt, i)
    {
      if EndsWithIgnoringCase(brandName, Suffixes[i]) {
        brandName := brandName[..|brandName| - |Suffixes[i]|];
        break;
      }
      i := i + 1;
    }
    assert brandName == StripSuffix(nameWithoutExt);
    brandName := HyphensToSpaces(brandName);
    brandName := TitleCase(brandName);
  }

  /** What a character of a title-cased text is: upper case at the start of a word, lower case elsewhere. */
  function CaseAt(s: string, i: nat): char
    requires i < |s|
  {
    if i == 0 || s[i - 1] == ' ' then Upper(s[i]) else Lower(s[i])
  }

  /** Every space-separated word is its first character in upper case followed by the rest in lower case. */
  predicate IsTitleCased(s: string) {
    forall i :: 0 <= i < |s| ==> s[i] == CaseAt(s, i)
  }

  lemma TitleWordAt(word: string)
    requires forall j :: 0 <= j < |word| ==> word[j] != ' '
    ensures |TitleWord(word)| == |word|
    ensures forall i :: 0 <= i < |word| ==> TitleWord(word)[i] == CaseAt(word, i)
  {
    if word != [] {
      var r := TitleWord(word);
      var tail := LowerStr(word[1..]);
      assert r == [Upper(word[0])] + tail;
      forall i | 0 < i < |word| ensures r[i] == CaseAt(word, i) {
        assert word[i - 1] != ' ';
        assert r[i] == tail[i - 1] == Lower(word[1..][i - 1]);
      }
    }
  }

  /** No character before index `k` is a space when `" "` does not occur before `k`. */
  lemma BeforeFirstSpace(s: string, k: nat)
    requires k <= |s|
    requires forall j :: 0 <= j < k ==> !OccursAt(s, " ", j)
    ensures forall j :: 0 <= j < k ==> s[j] != ' '
  {
    SingleCharOccurs(s, ' ');
  }

  /** Title-casing a text whose first space is at `k`: the first word, a space, the rest. */
  lemma TitleCaseUnfold(s: string, k: nat)
    requires IndexOf(s, " ") == Some(k)
    ensures TitleCase(s) == TitleWord(s[..k]) + " " + TitleCase(s[k + 1..])
  {
    var rest := s[k + 1..];
    var ws := Split(s, " ");
    assert ws == [s[..k]] + Split(rest, " ");
    var ts := TitleWords(ws);
    assert |ts| >= 2 && ts[0] == TitleWord(s[..k]) && ts[1..] == TitleWords(Split(rest, " "));
  }

  /** Title-casing changes every character to the case its position calls for, and nothing else. */
  lemma {:induction false} TitleCaseAt(s: string)
    ensures |TitleCase(s)| == |s|
    ensures forall i :: 0 <= i < |s| ==> TitleCase(s)[i] == CaseAt(s, i)
    decreases |s|
  {
    match IndexOf(s, " ")
    case None =>
      assert Split(s, " ") == [s];
      assert TitleWords([s]) == [TitleWord(s)];
      BeforeFirstSpace(s, |s|);
      TitleWordAt(s);
    case Some(k) =>
      var first, rest := s[..k], s[k + 1..];
      assert s[k..k + 1] == " ";
      BeforeFirstSpace(s, k);
      TitleWordAt(first);
      TitleCaseAt(rest);
      TitleCaseUnfold(s, k);
      CaseAtAroundSpace(s, k, TitleWord(first), TitleCase(rest));
  }

  /** Casing each side of a space on its own agrees with casing the whole text. */
  lemma CaseAtAroundSpace(s: string, k: nat, a: string, b: string)
    requires k < |s| && s[k] == ' '
    requires |a| == k && forall i :: 0 <= i < k ==> a[i] == CaseAt(s[..k], i)
    requires |b| == |s| - k - 1 && forall i :: 0 <= i < |b| ==> b[i] == CaseAt(s[k + 1..], i)
    ensures |a + " " + b| == |s|
    ensures forall i :: 0 <= i < |s| ==> (a + " " + b)[i] == CaseAt(s, i)
  {
    var r := a + " " + b;
    forall i | 0 <= i < |s| ensures r[i] == CaseAt(s, i) {
      if i < k {
        assert r[i] == a[i];
      } else if i > k {
        assert r[i] == b[i - k - 1];
      }
    }
  }

  /** Title-casing works on words separated by single spaces: the output is title-cased. */
  lemma TitleCaseIsTitleCased(s: string)
    ensures IsTitleCased(TitleCase(s))
  {
    TitleCaseAt(s);
    var r := TitleCase(s);
    forall i | 0 <= i < |r| ensures r[i] == CaseAt(r, i) {
      if i > 0 {
        assert r[i - 1] == ' ' <==> s[i - 1] == ' ';
      }
    }
  }

  /**
   * The brand label has the length of the stripped name, contains no hyphen, changes only
   * the case of the stripped name's letters (hyphens becoming spaces), and is title-cased.
   */
  lemma BrandNameShape(filename: string)
    ensures var core := StripSuffix(StripExtension(filename));
      var r := BrandNameOf(filename);
      && |r| == |core|
      && (forall i :: 0 <= i < |r| ==> r[i] == CaseAt(HyphensToSpaces(core), i))
      && (forall i :: 0 <= i < |r| ==> r[i] != '-')
      && IsTitleCased(r)
  {
    if filename != "" {
      var t := HyphensToSpaces(StripSuffix(StripExtension(filename)));
      TitleCaseAt(t);
      TitleCaseIsTitleCased(t);
    }
  }

  /** Suffix matching ignores case: stripping commutes with lower-casing the name. */
  lemma StripSuffixIgnoresCase(name: string)
    ensures LowerStr(StripSuffix(name)) == StripSuffix(LowerStr(name))
  {
    var low := LowerStr(name);
    assert LowerStr(low) == low;
    forall k | 0 <= k < |Suffixes|
      ensures EndsWithIgnoringCase(name, Suffixes[k]) == EndsWithIgnoringCase(low, Suffixes[k])
    {
    }
    match MatchFrom(name, 0)
    case None =>
    case Some(k) =>
      assert LowerStr(name[..|name| - |Suffixes[k]|]) == low[..|name| - |Suffixes[k]|];
  }

  /** `-perfumes` is tried before `-perfume`, so it is removed whole. */
  lemma PerfumesWinsOverPerfume(name: string)
    requires EndsWithIgnoringCase(name, "-perfumes")
    ensures StripSuffix(name) == name[..|name| - 9]
  {
    assert IsFirstMatch(name, 0);
  }

  /** A name whose last character differs from a suffix's last one, ignoring case, does not end with it. */
  lemma LastCharDiffers(name: string, suffix: string)
    requires |name| > 0 && |suffix| > 0 && Lower(name[|name| - 1]) != Lower(suffix[|suffix| - 1])
    ensures !EndsWithIgnoringCase(name, suffix)
  {
    if |suffix| <= |name| {
      var low := LowerStr(name);
      assert low[|low| - |suffix|..][|suffix| - 1] == low[|low| - 1];
    }
  }

  /** The extension is cut at a `.` that is not the first character and has no `.` after it. */
  lemma StripExtensionAt(filename: string, k: nat)
    requires 0 < k < |filename| && filename[k] == '.'
    requires forall j :: k < j < |filename| ==> filename[j] != '.'
    ensures StripExtension(filename) == filename[..k]
  {
  }

  /** Only one suffix is removed even when the name ends with two of them. */
  lemma OneSuffixOnly()
    ensures StripSuffix("dior-links-list") == "dior-links"
  {
    var name := "dior-links-list";
    forall k | 0 <= k < 6 ensures !EndsWithIgnoringCase(name, Suffixes[k]) {
      LastCharDiffers(name, Suffixes[k]);
    }
    assert LowerStr(name)[10..] == "-list";
    assert EndsWithIgnoringCase(name, Suffixes[6]);
  }

  lemma AcquaExtension(f: string, n: string)
    requires f == "Acqua-di-Parma-perfumes.txt" && n == "Acqua-di-Parma-perfumes"
    ensures StripExtension(f) == n
  {
    StripExtensionAt(f, 23);
    assert f[..23] == n;
  }

  lemma AcquaSuffix(n: string, c: string)
    requires n == "Acqua-di-Parma-perfumes" && c == "Acqua-di-Parma"
    ensures StripSuffix(n) == c
  {
    assert LowerStr(n)[14..] == "-perfumes";
    PerfumesWinsOverPerfume(n);
    assert n[..14] == c;
  }

  lemma AcquaHyphens(c: string, t: string)
    requires c == "Acqua-di-Parma" && t == "Acqua di Parma"
    ensures HyphensToSpaces(c) == t
  {
  }

  /** The case each position of the hyphen-free name calls for. */
  lemma AcquaCases(t: string, e: string)
    requires t == "Acqua di Parma" && e == "Acqua Di Parma"
    ensures forall i :: 0 <= i < |t| ==> CaseAt(t, i) == e[i]
  {
    forall i | 0 <= i < |t| ensures CaseAt(t, i) == e[i] {
      if i == 0 || i == 6 || i == 9 {
        assert CaseAt(t, i) == Upper(t[i]);
      } else if i == 5 || i == 8 {
        assert t[i] == ' ';
      } else {
        assert CaseAt(t, i) == Lower(t[i]);
      }
    }
  }

  lemma AcquaDiParmaTitle(t: string, e: string)
    requires t == "Acqua di Parma" && e == "Acqua Di Parma"
    ensures TitleCase(t) == e
  {
    TitleCaseAt(t);
    AcquaCases(t, e);
  }

  lemma AcquaDiParma()
    ensures BrandNameOf("Acqua-di-Parma-perfumes.txt") == "Acqua Di Parma"
  {
    AcquaExtension("Acqua-di-Parma-perfumes.txt", "Acqua-di-Parma-perfumes");
    AcquaSuffix("Acqua-di-Parma-perfumes", "Acqua-di-Parma");
    AcquaHyphens("Acqua-di-Parma", "Acqua di Parma");
    AcquaDiParmaTitle("Acqua di Parma", "Acqua Di Parma");
  }

  lemma ChanelExtension(f: string, t: string)
    requires f == "chanel.json" && t == "chanel"
    ensures StripExtension(f) == t
  {
    StripExtensionAt(f, 6);
    assert f[..6] == t;
  }

  lemma ChanelHyphens(t: string)
    requires t == "chanel"
    ensures HyphensToSpaces(t) == t
  {
  }

  lemma ChanelNoSuffix(t: string)
    requires t == "chanel"
    ensures StripSuffix(t) == t
  {
    LastCharDiffers(t, Suffixes[0]);
    LastCharDiffers(t, Suffixes[1]);
    LastCharDiffers(t, Suffixes[2]);
    LastCharDiffers(t, Suffixes[3]);
    LastCharDiffers(t, Suffixes[4]);
    LastCharDiffers(t, Suffixes[5]);
    LastCharDiffers(t, Suffixes[6]);
    LastCharDiffers(t, Suffixes[7]);
  }

  lemma ChanelCases(t: string, e: string)
    requires t == "chanel" && e == "Chanel"
    ensures forall i :: 0 <= i < |t| ==> CaseAt(t, i) == e[i]
  {
    forall i | 0 <= i < |t| ensures CaseAt(t, i) == e[i] {
      if i == 0 {
        assert CaseAt(t, i) == Upper(t[i]);
      } else {
        assert CaseAt(t, i) == Lower(t[i]);
      }
    }
  }

  lemma ChanelTitle(t: string, e: string)
    requires t == "chanel" && e == "Chanel"
    ensures TitleCase(t) == e
  {
    TitleCaseAt(t);
    ChanelCases(t, e);
  }

  lemma Chanel()
    ensures BrandNameOf("chanel.json") == "Chanel"
  {
    ChanelExtension("chanel.json", "chanel");
    ChanelNoSuffix("chanel");
    ChanelHyphens("chanel");
    ChanelTitle("chanel", "Chanel");
  }

  lemma EmptyName()
    ensures BrandNameOf("") == ""
  {
  }
}
