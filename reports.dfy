/** Section extraction from a filed report (process_reports.py). A document
    is the sequence of its pages' texts; the PDF library that produces them
    is not part of this model. */
module Reports {
  import opened Base
  import opened Text
  import opened Order

  // ---------------------------------------------------------------------
  // prettify_text
  // ---------------------------------------------------------------------

  predicate IsTerminal(c: char) { c == '.' || c == '!' || c == '?' }

  /** Position `i` starts a whitespace run that follows `.`, `!` or `?`:
      one of the places where `re.split(r'(?<=[.!?])\s+', s)` cuts. */
  predicate BreakAt(s: string, i: nat)
  {
    0 < i < |s| && IsTerminal(s[i - 1]) && IsSpace(s[i])
  }

  /** The first cut at or after `i`, or `|s|` when there is none. */
  function NextBreak(s: string, i: nat): (k: nat)
    requires i <= |s|
    ensures i <= k <= |s|
    ensures k < |s| ==> BreakAt(s, k)
    ensures forall j :: i <= j < k ==> !BreakAt(s, j)
    decreases |s| - i
  {
    if i == |s| || BreakAt(s, i) then i else NextBreak(s, i + 1)
  }

  /** The pieces `re.split` returns for `s[i..]`: each cut removes the whole
      whitespace run, and the search resumes after it. */
  function SplitFrom(s: string, i: nat): (parts: seq<string>)
    requires i <= |s|
    ensures |parts| >= 1
    decreases |s| - i
  {
    var k := NextBreak(s, i);
    if k == |s| then [s[i..]]
    else [s[i..k]] + SplitFrom(s, SkipSpaces(s, k))
  }

  /** `str.capitalize()`: first character upper case, the rest lower case. */
  function Capitalize(w: string): (r: string)
  {
    if w == [] then [] else [Upper(w[0])] + LowerStr(w[1..])
  }

  function CapitalizeAll(parts: seq<string>): (r: seq<string>)
    ensures |r| == |parts|
    ensures forall i :: 0 <= i < |parts| ==> r[i] == Capitalize(parts[i])
  {
    seq(|parts|, i requires 0 <= i < |parts| => Capitalize(parts[i]))
  }

  /** `sep.join(parts)` */
  function Join(sep: string, parts: seq<string>): string
  {
    if |parts| == 0 then []
    else if |parts| == 1 then parts[0]
    else parts[0] + sep + Join(sep, parts[1..])
  }

  /** `prettify_text`: lower-case everything, split into sentences, capitalise
      each and join them with one space. */
  function Prettify(text: string): string
  {
    Join(" ", CapitalizeAll(SplitFrom(LowerStr(text), 0)))
  }

  /** The same result described character by character: every whitespace
      run after `.`, `!` or `?` becomes one space, and the character that
      starts a sentence is upper-cased; everything else is copied. */
  function Sentences(s: string, i: nat, start: bool): string
    requires i <= |s|
    decreases |s| - i
  {
    if i == |s| then []
    else if BreakAt(s, i) then [' '] + Sentences(s, SkipSpaces(s, i), true)
    else [if start then Upper(s[i]) else s[i]] + Sentences(s, i + 1, false)
  }

  /** Inside a sentence the characters are copied unchanged. */
  lemma {:induction false} SentenceBody(s: string, m: nat, k: nat)
    requires m <= |s| && NextBreak(s, m) == k
    ensures Sentences(s, m, false) == s[m..k] + Sentences(s, k, false)
    decreases k - m
  {
    if m < k {
      var rest := Sentences(s, k, false);
      assert !BreakAt(s, m) && NextBreak(s, m + 1) == k;
      assert Sentences(s, m, false) == [s[m]] + Sentences(s, m + 1, false);
      SentenceBody(s, m + 1, k);
      assert s[m..k] == [s[m]] + s[m + 1..k];
      assert [s[m]] + (s[m + 1..k] + rest) == ([s[m]] + s[m + 1..k]) + rest;
    }
  }

  /** On lower-case text `capitalize` only touches the first character. */
  lemma CapitalizeLower(s: string, i: nat, k: nat)
    requires AllLower(s)
    requires i < k <= |s|
    ensures Capitalize(s[i..k]) == [Upper(s[i])] + s[i + 1..k]
  {
    var w := s[i..k];
    assert w[1..] == s[i + 1..k];
    assert LowerStr(w[1..]) == w[1..];
  }

  /** The last sentence: no cut from `i` to the end. */
  lemma LastSentence(s: string, i: nat)
    requires AllLower(s)
    requires i <= |s| && NextBreak(s, i) == |s|
    ensures Join(" ", CapitalizeAll(SplitFrom(s, i))) == Sentences(s, i, true)
  {
    assert SplitFrom(s, i) == [s[i..]];
    assert CapitalizeAll(SplitFrom(s, i)) == [Capitalize(s[i..])];
    if i < |s| {
      assert !BreakAt(s, i);
      CapitalizeLower(s, i, |s|);
      SentenceBody(s, i + 1, |s|);
      assert s[i + 1..|s|] + [] == s[i + 1..];
    }
  }

  lemma SentencesAtBreak(s: string, k: nat, start: bool)
    requires k <= |s| && BreakAt(s, k)
    ensures Sentences(s, k, start) == [' '] + Sentences(s, SkipSpaces(s, k), true)
  {
  }

  lemma JoinCons(first: string, tail: seq<string>)
    requires |tail| >= 1
    ensures Join(" ", [first] + tail) == first + " " + Join(" ", tail)
  {
    assert ([first] + tail)[1..] == tail;
  }

  lemma CapitalizeAllCons(w: string, tail: seq<string>)
    ensures CapitalizeAll([w] + tail) == [Capitalize(w)] + CapitalizeAll(tail)
  {
  }

  /** The text of a sentence that ends at the cut `k`. */
  lemma SentenceBeforeCut(s: string, i: nat, k: nat)
    requires AllLower(s)
    requires i <= k < |s| && k == NextBreak(s, i)
    ensures Sentences(s, i, true) == Capitalize(s[i..k]) + " " + Sentences(s, SkipSpaces(s, k), true)
  {
    if i < k {
      NonEmptySentenceBeforeCut(s, i, k);
    } else {
      assert s[i..k] == [];
      SentencesAtBreak(s, k, true);
    }
  }

  lemma NonEmptySentenceBeforeCut(s: string, i: nat, k: nat)
    requires AllLower(s)
    requires i < k < |s| && k == NextBreak(s, i)
    ensures Sentences(s, i, true) == Capitalize(s[i..k]) + " " + Sentences(s, SkipSpaces(s, k), true)
  {
    var after := Sentences(s, SkipSpaces(s, k), true);
    assert !BreakAt(s, i);
    assert Sentences(s, i, true) == [Upper(s[i])] + Sentences(s, i + 1, false);
    SentenceRest(s, i, k);
    CapitalizeLower(s, i, k);
    RegroupSentence(Upper(s[i]), s[i + 1..k], after);
  }

  /** After its first letter, a sentence runs on unchanged to the cut. */
  lemma SentenceRest(s: string, i: nat, k: nat)
    requires i < k < |s| && k == NextBreak(s, i)
    ensures Sentences(s, i + 1, false) == s[i + 1..k] + (" " + Sentences(s, SkipSpaces(s, k), true))
  {
    assert NextBreak(s, i + 1) == k;
    SentenceBody(s, i + 1, k);
    SentencesAtBreak(s, k, false);
  }

  lemma RegroupSentence(c: char, body: string, after: string)
    ensures [c] + (body + (" " + after)) == ([c] + body) + " " + after
  {
  }

  /** A sentence ended by a cut, followed by the rest of the text. */
  lemma CutSentence(s: string, i: nat, k: nat, j: nat)
    requires AllLower(s)
    requires i <= k < |s| && k == NextBreak(s, i) && j == SkipSpaces(s, k)
    requires Join(" ", CapitalizeAll(SplitFrom(s, j))) == Sentences(s, j, true)
    ensures Join(" ", CapitalizeAll(SplitFrom(s, i))) == Sentences(s, i, true)
  {
    var tail := SplitFrom(s, j);
    assert SplitFrom(s, i) == [s[i..k]] + tail;
    CapitalizeAllCons(s[i..k], tail);
    JoinCons(Capitalize(s[i..k]), CapitalizeAll(tail));
    SentenceBeforeCut(s, i, k);
  }

  lemma {:induction false} SplitJoinFrom(s: string, i: nat)
    requires AllLower(s)
    requires i <= |s|
    ensures Join(" ", CapitalizeAll(SplitFrom(s, i))) == Sentences(s, i, true)
    decreases |s| - i
  {
    var k := NextBreak(s, i);
    if k == |s| {
      LastSentence(s, i);
    } else {
      var j := SkipSpaces(s, k);
      SplitJoinFrom(s, j);
      CutSentence(s, i, k, j);
    }
  }

  /** `prettify_text` equals the character-by-character description. */
  lemma PrettifySpec(text: string)
    ensures Prettify(text) == Sentences(LowerStr(text), 0, true)
  {
    LowerStrIsLower(text);
    SplitJoinFrom(LowerStr(text), 0);
  }

  /** A non-empty text keeps its first character, upper-cased. */
  lemma PrettifyHead(text: string)
    requires text != []
    ensures Prettify(text) != []
    ensures Prettify(text)[0] == Upper(Lower(text[0]))
  {
    PrettifySpec(text);
  }

  // ---------------------------------------------------------------------
  // The `Item n.` marker
  // ---------------------------------------------------------------------

  /** First index of the end of the run of ASCII capitals starting at `i`. */
  function SkipUppers(s: string, i: nat): (j: nat)
    requires i <= |s|
    ensures i <= j <= |s|
    decreases |s| - i
  {
    if i < |s| && IsUpperAscii(s[i]) then SkipUppers(s, i + 1) else i
  }

  /** The pattern `<word>\s*\d+[A-Z]*\.` anchored at `i`: the index just past
      its dot. Each part stops at a character the next part cannot start
      with, so the greedy reading is the only one a regex engine finds. */
  function MarkerEnd(s: string, i: nat, word: string): (e: Option<nat>)
    requires i <= |s|
    ensures e.Some? ==> i + |word| < e.value <= |s| && s[e.value - 1] == '.'
    ensures e.Some? ==> StartsWith(s[i..], word)
  {
    if !StartsWith(s[i..], word) then None
    else
      var d := SkipSpaces(s, i + |word|);
      var n := SkipDigits(s, d);
      var l := SkipUppers(s, n);
      if d < n && l < |s| && s[l] == '.' then Some(l + 1) else None
  }

  /** `re.search` for the marker in `s[i..]`: the first place it matches. */
  function FindMarker(s: string, i: nat, word: string): (r: Option<nat>)
    requires i <= |s|
    ensures r.Some? ==> i <= r.value <= |s| && MarkerEnd(s, r.value, word).Some?
    ensures forall j :: i <= j <= |s| && (r.None? || j < r.value) ==> MarkerEnd(s, j, word).None?
    decreases |s| - i
  {
    if MarkerEnd(s, i, word).Some? then Some(i)
    else if i == |s| then None
    else FindMarker(s, i + 1, word)
  }

  // ---------------------------------------------------------------------
  // detect_toc_end
  // ---------------------------------------------------------------------

  predicate OccursAt(s: string, i: nat, p: string)
  {
    i + |p| <= |s| && s[i..i + |p|] == p
  }

  /** `re.search(r"Table of Contents", text, re.IGNORECASE)` */
  predicate MentionsContents(text: string)
  {
    exists i :: 0 <= i <= |text| && OccursAt(LowerStr(text), i, "table of contents")
  }

  /** `re.search(r"Item\s*\d+[A-Z]*\.", text)`, case-sensitive. */
  predicate HasItem(text: string)
  {
    exists j :: 0 <= j <= |text| && MarkerEnd(text, j, "Item").Some?
  }

  /** The first page in `[i, limit)` that passes `test`. */
  function FirstPage(pages: seq<string>, i: nat, limit: nat, test: string -> bool): (r: Option<nat>)
    requires limit <= |pages|
    ensures r.Some? ==> i <= r.value < limit && test(pages[r.value])
    ensures forall p :: i <= p < limit && (r.None? || p < r.value) ==> !test(pages[p])
    decreases limit - i
  {
    if i >= limit then None
    else if test(pages[i]) then Some(i)
    else FirstPage(pages, i + 1, limit, test)
  }

  lemma FirstPageStep(pages: seq<string>, i: nat, limit: nat, test: string -> bool)
    requires i < limit <= |pages| && !test(pages[i])
    ensures FirstPage(pages, i, limit, test) == FirstPage(pages, i + 1, limit, test)
  {
  }

  /** `min(max_toc_pages, len(document))` as a `range` bound: nothing for a
      bound that is not positive. */
  function Scanned(count: nat, maxPages: int): (n: nat)
    ensures n <= count
    ensures n as int <= maxPages || n == 0
  {
    if maxPages <= 0 then 0 else if maxPages < count then maxPages else count
  }

  /** The page after the table of contents: one past the first page, at or
      after the first page mentioning the table of contents, that carries an
      `Item n.` marker, both among the first `maxTocPages` pages; 1 when
      either is missing. */
  function TocEnd(pages: seq<string>, maxTocPages: int): nat
  {
    var limit := Scanned(|pages|, maxTocPages);
    match FirstPage(pages, 0, limit, MentionsContents)
    case None => 1
    case Some(t) =>
      match FirstPage(pages, t, limit, HasItem)
      case None => 1
      case Some(p) => p + 1
  }

  /** `detect_toc_end`. As written, the test `not toc_start` is also true
      when the contents were found on page 0, so a later page mentioning
      them moves `toc_start` again; only whether it is set is ever read. */
  method DetectTocEnd(pages: seq<string>, maxTocPages: int) returns (r: nat)
    ensures r == TocEnd(pages, maxTocPages)
  {
    var tocStart: Option<nat> := None;
    var tocEndPage := 0;
    var limit := Scanned(|pages|, maxTocPages);
    ghost var first := FirstPage(pages, 0, limit, MentionsContents);
    var p := 0;
    while p < limit
      invariant p <= limit
      invariant tocEndPage == 0
      invariant tocStart.None? ==> first == FirstPage(pages, p, limit, MentionsContents)
      invariant tocStart.Some? ==> first.Some? && first.value < p
      invariant tocStart.Some? ==> FirstPage(pages, first.value, limit, HasItem) == FirstPage(pages, p, limit, HasItem)
    {
      var text := pages[p];
      var mentions := MentionsContents(text);
      if !mentions {
        FirstPageStep(pages, p, limit, MentionsContents);
      }
      if (tocStart.None? || tocStart == Some(0)) && mentions {
        if tocStart.None? {
          assert first == Some(p);
        }
        tocStart := Some(p);
      }
      var item := HasItem(text);
      if tocStart.Some? && item {
        tocEndPage := p;
        assert TocEnd(pages, maxTocPages) == p + 1;
        break;
      }
      if !item {
        FirstPageStep(pages, p, limit, HasItem);
      }
      p := p + 1;
    }
    r := tocEndPage + 1;
  }

  /** Without a page mentioning the contents among the scanned ones, the
      extraction starts at page 1. */
  lemma TocEndWithoutContents(pages: seq<string>, maxTocPages: int)
    requires forall q :: 0 <= q < Scanned(|pages|, maxTocPages) ==> !MentionsContents(pages[q])
    ensures TocEnd(pages, maxTocPages) == 1
  {
  }

  /** With `t` the first page mentioning the contents, the result is one past
      the first `Item n.` page from `t` on, or 1 when there is none. */
  lemma TocEndWithContents(pages: seq<string>, maxTocPages: int, t: nat)
    requires t < Scanned(|pages|, maxTocPages) && MentionsContents(pages[t])
    requires forall q :: 0 <= q < t ==> !MentionsContents(pages[q])
    ensures (forall p :: t <= p < Scanned(|pages|, maxTocPages) ==> !HasItem(pages[p]))
            ==> TocEnd(pages, maxTocPages) == 1
    ensures (exists p :: t <= p < Scanned(|pages|, maxTocPages) && HasItem(pages[p]))
            ==> (var e := TocEnd(pages, maxTocPages) - 1;
                 t <= e < Scanned(|pages|, maxTocPages) && HasItem(pages[e])
                 && forall q :: t <= q < e ==> !HasItem(pages[q]))
  {
    var limit := Scanned(|pages|, maxTocPages);
    assert FirstPage(pages, 0, limit, MentionsContents) == Some(t) by {
      FirstPageIs(pages, 0, limit, MentionsContents, t);
    }
    var r := FirstPage(pages, t, limit, HasItem);
    assert TocEnd(pages, maxTocPages) == if r.Some? then r.value + 1 else 1;
  }

  /** The first page that passes, found from its own contract. */
  lemma FirstPageIs(pages: seq<string>, i: nat, limit: nat, test: string -> bool, t: nat)
    requires i <= t < limit <= |pages| && test(pages[t])
    requires forall q :: i <= q < t ==> !test(pages[q])
    ensures FirstPage(pages, i, limit, test) == Some(t)
  {
  }

  // ---------------------------------------------------------------------
  // extract_section
  // ---------------------------------------------------------------------

  const NotFound := "Section not found."

  /** The pages from `from` on, each followed by a newline, as the loop in
      `extract_section` concatenates them. */
  function PagesText(pages: seq<string>, from: nat): string
    decreases |pages| - from
  {
    if from >= |pages| then [] else pages[from] + "\n" + PagesText(pages, from + 1)
  }

  /** `re.sub(r'\s+', ' ', s).upper()` */
  function Normalize(s: string): string
  {
    UpperStr(CollapseSpaces(s))
  }

  /** The pattern `ITEM\s*\d+[A-Z]*\.\s*` followed by `heading` matches at `i`.
      The heading it is used with is stripped, so it does not start with
      whitespace and the greedy `\s*` is the only reading. Text and heading
      are both upper-cased, so `re.IGNORECASE` changes nothing for them. */
  predicate HeadingAt(text: string, i: nat, heading: string)
  {
    i <= |text| && MarkerEnd(text, i, "ITEM").Some?
    && StartsWith(text[SkipSpaces(text, MarkerEnd(text, i, "ITEM").value)..], heading)
  }

  /** `re.search` for the heading pattern in `text[i..]`. */
  function FindHeading(text: string, i: nat, heading: string): (r: Option<nat>)
    requires i <= |text|
    ensures r.Some? ==> i <= r.value <= |text| && HeadingAt(text, r.value, heading)
    ensures forall j :: i <= j <= |text| && (r.None? || j < r.value) ==> !HeadingAt(text, j, heading)
    decreases |text| - i
  {
    if HeadingAt(text, i, heading) then Some(i)
    else if i == |text| then None
    else FindHeading(text, i + 1, heading)
  }

  /** Where the cut ends: `start` plus the offset of the next marker found
      in `text[start + 1..]`, or the end of the text. The marker pattern has
      no anchor and no look-behind, so that search finds what the search of
      the whole text from `start + 1` finds, at an offset `start + 1`
      smaller. */
  function CutEnd(text: string, start: nat): (e: nat)
    requires start < |text|
    ensures start <= e <= |text|
  {
    var next := FindMarker(text, start + 1, "ITEM");
    if next.Some? then next.value - 1 else |text|
  }

  /** The stripped section text, or `None` when the heading is not found. */
  function Cut(text: string, heading: string): Option<string>
  {
    match FindHeading(text, 0, heading)
    case None => None
    case Some(start) => Some(Strip(text[start..CutEnd(text, start)]))
  }

  /** The text searched: every page from the end of the table of contents,
      normalised. */
  function SectionText(pages: seq<string>): string
  {
    Normalize(PagesText(pages, TocEnd(pages, 10)))
  }

  function SectionHeading(heading: string): string
  {
    Normalize(Strip(heading))
  }

  /** What `extract_section(document, heading)` returns. */
  function Section(pages: seq<string>, heading: string): string
  {
    match Cut(SectionText(pages), SectionHeading(heading))
    case None => NotFound
    case Some(c) => if c == [] then NotFound else Prettify(c)
  }

  method ExtractSection(pages: seq<string>, heading: string) returns (r: string)
    ensures r == Section(pages, heading)
  {
    var tocEnd := DetectTocEnd(pages, 10);
    var fullText := JoinPages(pages, tocEnd);
    fullText := Normalize(fullText);
    var normalizedHeading := Normalize(Strip(heading));
    var cut := CutSection(fullText, normalizedHeading);
    r := if cut.Some? && cut.value != [] then Prettify(cut.value) else NotFound;
  }

  /** The heading search and the cut of `extract_section`. */
  method CutSection(text: string, heading: string) returns (c: Option<string>)
    ensures c == Cut(text, heading)
  {
    var found := FindHeading(text, 0, heading);
    if found.None? {
      return None;
    }
    var start := found.value;
    HeadingAtItem(text, start, heading);
    var end := CutEnd(text, start);
    c := Some(Strip(text[start..end]));
  }

  /** The page loop of `extract_section`: every page from `from` on, each
      followed by a newline. */
  method JoinPages(pages: seq<string>, from: nat) returns (text: string)
    ensures text == PagesText(pages, from)
  {
    text := "";
    var p := from;
    while p < |pages|
      invariant from <= p
      invariant p <= |pages| || p == from
      invariant text + PagesText(pages, p) == PagesText(pages, from)
    {
      text := text + pages[p] + "\n";
      p := p + 1;
    }
  }

  /** The cut runs to the end of the text exactly when no `ITEM n.` marker
      starts after the start. */
  lemma CutEndLast(text: string, start: nat)
    requires start < |text|
    ensures CutEnd(text, start) == |text| <==>
              forall j :: start < j <= |text| ==> MarkerEnd(text, j, "ITEM").None?
  {
  }

  /** Otherwise the cut ends one character before the next marker: the
      first `ITEM n.` after the start begins at the cut end plus one, so the
      character just before that marker is left out of the section. */
  lemma CutEndBeforeMarker(text: string, start: nat)
    requires start < |text|
    requires CutEnd(text, start) < |text|
    ensures FindMarker(text, start + 1, "ITEM") == Some(CutEnd(text, start) + 1)
  {
  }

  lemma {:induction false} TrimEndAbove(s: string, j: nat, lo: nat, m: nat)
    requires lo <= m < j <= |s| && !IsSpace(s[m])
    ensures TrimEnd(s, j, lo) > m
    decreases j
  {
    if IsSpace(s[j - 1]) {
      TrimEndAbove(s, j - 1, lo, m);
    }
  }

  /** Stripping a text that starts with a visible character keeps it. */
  lemma StripHead(x: string)
    requires x != [] && !IsSpace(x[0])
    ensures Strip(x) != [] && Strip(x)[0] == x[0]
  {
    assert SkipSpaces(x, 0) == 0;
    TrimEndAbove(x, |x|, 0, 0);
  }

  lemma ItemLetters(s: string, i: nat)
    requires i <= |s| && StartsWith(s[i..], "ITEM")
    ensures i + 1 < |s| && s[i] == 'I' && s[i + 1] == 'T'
  {
    var p := s[i..][..4];
    assert p == "ITEM";
    assert p[0] == s[i] && p[1] == s[i + 1];
  }

  /** A cut that starts on a marker ends after its first character: the
      next marker cannot begin on the `T` of this one. */
  lemma CutEndAfterStart(text: string, start: nat)
    requires start < |text| && StartsWith(text[start..], "ITEM")
    ensures CutEnd(text, start) > start
  {
    ItemLetters(text, start);
    var e := CutEnd(text, start);
    if e < |text| {
      CutEndBeforeMarker(text, start);
      var r := FindMarker(text, start + 1, "ITEM");
      assert MarkerEnd(text, r.value, "ITEM").Some?;
      assert StartsWith(text[r.value..], "ITEM");
      ItemLetters(text, r.value);
    }
  }

  /** When the heading is found, the section text is not empty and starts
      with the `I` of its own `ITEM` marker. */
  lemma CutFound(text: string, heading: string, start: nat)
    requires FindHeading(text, 0, heading) == Some(start)
    ensures Cut(text, heading).Some?
    ensures Cut(text, heading).value != [] && Cut(text, heading).value[0] == 'I'
  {
    HeadingAtItem(text, start, heading);
    CutEndAfterStart(text, start);
    var e := CutEnd(text, start);
    var x := text[start..e];
    assert x[0] == 'I';
    StripHead(x);
  }

  lemma HeadingAtItem(text: string, i: nat, heading: string)
    requires HeadingAt(text, i, heading)
    ensures i < |text| && text[i] == 'I' && StartsWith(text[i..], "ITEM")
  {
    ItemLetters(text, i);
  }

  /** `extract_section` answers "Section not found." exactly when no
      `ITEM n.` marker followed by the normalised heading occurs in the
      normalised text; otherwise it answers the prettified section, which
      starts with `I`. */
  lemma SectionSpec(pages: seq<string>, heading: string)
    ensures Section(pages, heading) == NotFound <==>
              forall i :: 0 <= i <= |SectionText(pages)| ==>
                !HeadingAt(SectionText(pages), i, SectionHeading(heading))
    ensures Section(pages, heading) != NotFound ==>
              Section(pages, heading) != [] && Section(pages, heading)[0] == 'I'
  {
    var found := FindHeading(SectionText(pages), 0, SectionHeading(heading));
    if found.Some? {
      SectionFound(pages, heading, found.value);
    } else {
      SectionMissing(pages, heading);
    }
  }

  lemma SectionFound(pages: seq<string>, heading: string, start: nat)
    requires FindHeading(SectionText(pages), 0, SectionHeading(heading)) == Some(start)
    ensures Section(pages, heading) != NotFound
    ensures Section(pages, heading) != [] && Section(pages, heading)[0] == 'I'
  {
    var text := SectionText(pages);
    var h := SectionHeading(heading);
    CutFound(text, h, start);
    var c := Cut(text, h).value;
    assert Section(pages, heading) == Prettify(c);
    assert Prettify(c) != [] && Prettify(c)[0] == 'I' by {
      PrettifyHead(c);
    }
    assert NotFound[0] == 'S';
  }

  lemma SectionMissing(pages: seq<string>, heading: string)
    requires FindHeading(SectionText(pages), 0, SectionHeading(heading)).None?
    ensures Section(pages, heading) == NotFound
  {
    assert Cut(SectionText(pages), SectionHeading(heading)).None?;
  }

  lemma StripKeeps(x: string)
    requires x != [] && !IsSpace(x[0]) && !IsSpace(x[|x| - 1])
    ensures Strip(x) == x
  {
    assert SkipSpaces(x, 0) == 0;
    assert TrimEnd(x, |x|, 0) == |x|;
  }

  lemma ExampleHeading(text: string)
    requires text == "ITEM 1. TAX.ITEM 2."
    ensures FindHeading(text, 0, "TAX") == Some(0)
  {
    assert text[..4] == "ITEM" && text[4] == ' ' && text[5] == '1' && text[6] == '.';
    assert SkipSpaces(text, 4) == 5 && SkipDigits(text, 5) == 6 && SkipUppers(text, 6) == 6;
    assert MarkerEnd(text, 0, "ITEM") == Some(7);
    assert SkipSpaces(text, 7) == 8 && text[8..][..3] == "TAX";
    assert HeadingAt(text, 0, "TAX");
  }

  /** No marker starts where there is no `I`. */
  lemma NoMarkerWithoutI(s: string, j: nat)
    requires j < |s| && s[j] != 'I'
    ensures MarkerEnd(s, j, "ITEM").None?
  {
    if MarkerEnd(s, j, "ITEM").Some? {
      ItemLetters(s, j);
    }
  }

  lemma ExampleMarker(text: string)
    requires text == "ITEM 1. TAX.ITEM 2."
    ensures MarkerEnd(text, 12, "ITEM").Some?
  {
    assert StartsWith(text[12..], "ITEM") by {
      assert text[12..][..4] == "ITEM";
    }
    assert SkipSpaces(text, 16) == 17 by {
      assert IsSpace(text[16]) && !IsSpace(text[17]);
    }
    assert SkipDigits(text, 17) == 18 by {
      assert IsDigit(text[17]) && !IsDigit(text[18]);
    }
    assert SkipUppers(text, 18) == 18 by {
      assert !IsUpperAscii(text[18]);
    }
    assert text[18] == '.';
  }

  lemma ExampleCutEnd(text: string)
    requires text == "ITEM 1. TAX.ITEM 2."
    ensures CutEnd(text, 0) == 11
  {
    ExampleMarker(text);
    forall j | 1 <= j < 12
      ensures MarkerEnd(text, j, "ITEM").None?
    {
      assert text[1..12] == "TEM 1. TAX.";
      assert text[j] == text[1..12][j - 1];
      NoMarkerWithoutI(text, j);
    }
    var r := FindMarker(text, 1, "ITEM");
    assert r == Some(12);
  }

  /** The character just before the next marker is lost: a section whose
      text runs straight into the next `ITEM` loses its final full stop. */
  lemma CutDropsLastCharacter()
    ensures Cut("ITEM 1. TAX.ITEM 2.", "TAX") == Some("ITEM 1. TAX")
  {
    var text := "ITEM 1. TAX.ITEM 2.";
    var section := "ITEM 1. TAX";
    assert text[0..11] == section;
    StripKeeps(section);
    ExampleHeading(text);
    ExampleCutEnd(text);
  }

  // ---------------------------------------------------------------------
  // extract_headers
  // ---------------------------------------------------------------------

  /** The pages concatenated without separator. */
  function Concat(pages: seq<string>): string
  {
    if pages == [] then [] else Concat(pages[..|pages| - 1]) + pages[|pages| - 1]
  }

  /** `min(10, len(document))` */
  function HeaderPages(pages: seq<string>): (n: nat)
    ensures n <= |pages| && n <= 10
    ensures n == |pages| || n == 10
  {
    if |pages| < 10 then |pages| else 10
  }

  /** The text the table-of-contents pattern is run on. */
  function HeaderText(pages: seq<string>): string
  {
    Concat(pages[..HeaderPages(pages)])
  }

  /** The pattern `^Item \d+[A-Z]?\.\s*` at the start of `entry`: the index
      where what follows it begins. */
  function ItemPrefixEnd(entry: string): (e: Option<nat>)
    ensures e.Some? ==> 7 <= e.value <= |entry| && StartsWith(entry, "Item ")
  {
    if !StartsWith(entry, "Item ") then None
    else
      var n := SkipDigits(entry, 5);
      var l := if n < |entry| && IsUpperAscii(entry[n]) then n + 1 else n;
      if 5 < n && l < |entry| && entry[l] == '.' then Some(SkipSpaces(entry, l + 1)) else None
  }

  /** `re.sub(r'^Item \d+[A-Z]?\.\s*', '', entry)` */
  function CleanHeader(entry: string): string
  {
    match ItemPrefixEnd(entry)
    case None => entry
    case Some(k) => entry[k..]
  }

  /** `extract_headers`: each match of the table-of-contents pattern in the
      first ten pages, stripped and without its `Item n.` prefix. The
      pattern's matches are given by `tocEntries`. */
  function Headers(pages: seq<string>, tocEntries: string -> seq<string>): seq<string>
  {
    var found := tocEntries(HeaderText(pages));
    seq(|found|, i requires 0 <= i < |found| => CleanHeader(Strip(found[i])))
  }

  method ExtractHeaders(pages: seq<string>, tocEntries: string -> seq<string>) returns (headers: seq<string>)
    ensures headers == Headers(pages, tocEntries)
  {
    var text := "";
    var count := if 10 < |pages| then 10 else |pages|;
    for p := 0 to count
      invariant text == Concat(pages[..p])
    {
      assert pages[..p + 1][..p] == pages[..p];
      text := text + pages[p];
    }
    assert pages[..count] == pages[..HeaderPages(pages)];
    var matches := tocEntries(text);
    var toc := seq(|matches|, i requires 0 <= i < |matches| => Strip(matches[i]));
    headers := seq(|toc|, i requires 0 <= i < |toc| => CleanHeader(toc[i]));
  }

  /** Headers come from the first ten pages only. */
  lemma HeadersFromFirstPages(pages: seq<string>, more: seq<string>, tocEntries: string -> seq<string>)
    requires |pages| >= 10
    ensures Headers(pages + more, tocEntries) == Headers(pages, tocEntries)
  {
    assert (pages + more)[..10] == pages[..10];
  }

  /** A header without the prefix is kept as it is. */
  lemma CleanHeaderKeeps(entry: string)
    requires !StartsWith(entry, "Item ")
    ensures CleanHeader(entry) == entry
  {
  }

  /** Cleaning removes exactly `Item <n><letter>. ` from a table-of-contents
      entry and gives back its title, whatever the item number. */
  lemma CleanHeaderRoundTrip(n: nat, letter: string, title: string)
    requires letter == [] || (|letter| == 1 && IsUpperAscii(letter[0]))
    requires title == [] || !IsSpace(title[0])
    ensures CleanHeader("Item " + Decimal(n) + letter + ". " + title) == title
  {
    var digits := Decimal(n);
    var entry := "Item " + digits + letter + ". " + title;
    var d := 5 + |digits|;
    var l := d + |letter|;
    assert StartsWith(entry, "Item ") && SkipDigits(entry, 5) == d by {
      var rest := letter + ". " + title;
      assert entry == "Item " + digits + rest;
      assert rest[0] == (if letter == [] then '.' else letter[0]);
      PrefixDigits(entry, digits, rest);
    }
    assert (l == d + 1 && IsUpperAscii(entry[d])) || (l == d && !IsUpperAscii(entry[d])) by {
      assert entry[d] == if letter == [] then '.' else letter[0];
    }
    assert entry[l] == '.' && SkipSpaces(entry, l + 1) == l + 2 && entry[l + 2..] == title by {
      assert entry[l..] == ". " + title;
      PrefixTail(entry, l, title);
    }
    ItemPrefixEndIs(entry, d, l);
  }

  /** `ItemPrefixEnd` once the digits run ends at `d` and the optional
      letter at `l`. */
  lemma ItemPrefixEndIs(entry: string, d: nat, l: nat)
    requires StartsWith(entry, "Item ") && 5 < d && SkipDigits(entry, 5) == d
    requires l < |entry| && entry[l] == '.'
    requires (l == d + 1 && IsUpperAscii(entry[d])) || (l == d && !IsUpperAscii(entry[d]))
    ensures ItemPrefixEnd(entry) == Some(SkipSpaces(entry, l + 1))
  {
  }

  /** The digits of the item number are skipped as one run. */
  lemma PrefixDigits(entry: string, digits: string, rest: string)
    requires entry == "Item " + digits + rest
    requires forall k :: 0 <= k < |digits| ==> IsDigit(digits[k])
    requires rest != [] && !IsDigit(rest[0])
    ensures StartsWith(entry, "Item ")
    ensures SkipDigits(entry, 5) == 5 + |digits|
  {
    var d := 5 + |digits|;
    assert entry[..5] == "Item ";
    forall k | 5 <= k < d
      ensures IsDigit(entry[k])
    {
      assert entry[k] == digits[k - 5];
    }
    assert entry[d] == rest[0];
    SkipDigitsTo(entry, 5, d);
  }

  /** After the optional letter come the dot and one space, then the title. */
  lemma PrefixTail(entry: string, l: nat, title: string)
    requires l + 2 <= |entry| && entry[l..] == ". " + title
    requires title == [] || !IsSpace(title[0])
    ensures entry[l] == '.'
    ensures SkipSpaces(entry, l + 1) == l + 2
    ensures entry[l + 2..] == title
  {
    assert entry[l] == entry[l..][0];
    assert entry[l + 1] == entry[l..][1] == ' ';
    if title != [] {
      assert entry[l + 2] == entry[l..][2] == title[0];
    }
    assert entry[l + 2..] == entry[l..][2..];
  }

  lemma {:induction false} SkipDigitsTo(s: string, i: nat, j: nat)
    requires i <= j <= |s|
    requires forall k :: i <= k < j ==> IsDigit(s[k])
    requires j == |s| || !IsDigit(s[j])
    ensures SkipDigits(s, i) == j
    decreases j - i
  {
    if i < j {
      SkipDigitsTo(s, i + 1, j);
    }
  }

  // ---------------------------------------------------------------------
  // extract_content_with_sections
  // ---------------------------------------------------------------------

  /** The dictionary `extract_content_with_sections` returns. */
  datatype Report = Report(ticker: string, fileName: string, sections: map<string, string>)

  /** The dictionary the header loop builds: one assignment per header, in
      order. */
  function SectionsOf(pages: seq<string>, headers: seq<string>): map<string, string>
  {
    if headers == [] then map[]
    else SectionsOf(pages, headers[..|headers| - 1])[headers[|headers| - 1] := Section(pages, headers[|headers| - 1])]
  }

  /** One entry per distinct header, each holding that header's section.
      A later duplicate overwrites an earlier one with the same value, since
      a section depends only on its header. */
  lemma {:induction false} SectionsOfSpec(pages: seq<string>, headers: seq<string>)
    ensures SectionsOf(pages, headers).Keys == Elems(headers)
    ensures forall h :: h in SectionsOf(pages, headers) ==> SectionsOf(pages, headers)[h] == Section(pages, h)
  {
    SectionsOfKeys(pages, headers);
    forall h | h in SectionsOf(pages, headers)
      ensures SectionsOf(pages, headers)[h] == Section(pages, h)
    {
      SectionsOfValue(pages, headers, h);
    }
  }

  lemma {:induction false} SectionsOfKeys(pages: seq<string>, headers: seq<string>)
    ensures SectionsOf(pages, headers).Keys == Elems(headers)
  {
    if headers != [] {
      var init, last := headers[..|headers| - 1], headers[|headers| - 1];
      SectionsOfKeys(pages, init);
      assert headers == init + [last];
      assert Elems(headers) == Elems(init) + {last};
    }
  }

  lemma {:induction false} SectionsOfValue(pages: seq<string>, headers: seq<string>, h: string)
    requires h in SectionsOf(pages, headers)
    ensures SectionsOf(pages, headers)[h] == Section(pages, h)
  {
    var init, last := headers[..|headers| - 1], headers[|headers| - 1];
    if h != last {
      SectionsOfValue(pages, init, h);
    }
  }

  lemma SectionsOfSnoc(pages: seq<string>, headers: seq<string>, i: nat)
    requires i < |headers|
    ensures SectionsOf(pages, headers[..i + 1]) == SectionsOf(pages, headers[..i])[headers[i] := Section(pages, headers[i])]
  {
    assert headers[..i + 1][..i] == headers[..i];
  }

  method ExtractContentWithSections(ticker: string, fileName: string, pages: seq<string>,
                                    tocEntries: string -> seq<string>) returns (report: Report)
    ensures report == Report(ticker, fileName, SectionsOf(pages, Headers(pages, tocEntries)))
  {
    var headers := ExtractHeaders(pages, tocEntries);
    var sections: map<string, string> := map[];
    for i := 0 to |headers|
      invariant sections == SectionsOf(pages, headers[..i])
    {
      var text := ExtractSection(pages, headers[i]);
      SectionsOfSnoc(pages, headers, i);
      sections := sections[headers[i] := text];
    }
    assert headers[..|headers|] == headers;
    report := Report(ticker, fileName, sections);
  }
}
