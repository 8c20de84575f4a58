/**
 * Text clean-up and page numbering of the PDF reader (utils/pdf_processor.py).
 * The PDF libraries themselves are not modelled: a document is given as the
 * sequence of what each page's text extraction returned.
 */
module PdfProcessor {
  import opened Wrappers
  import opened Text
  import opened Records

  /** The non-whitespace characters of `s`, in order. */
  function NonSpace(s: string): string {
    if s == [] then [] else (if IsSpace(s[0]) then [] else [s[0]]) + NonSpace(s[1..])
  }

  /** No whitespace other than a plain space, and never two whitespace characters in a row. */
  predicate SingleSpaced(s: string) {
    && (forall i :: 0 <= i < |s| && IsSpace(s[i]) ==> s[i] == ' ')
    && (forall i :: 0 <= i < |s| - 1 ==> !SpacePair(s, i))
  }

  /** Positions `i` and `i + 1` of `s` both hold whitespace. */
  predicate SpacePair(s: string, i: nat)
    requires i + 1 < |s|
  {
    IsSpace(s[i]) && IsSpace(s[i + 1])
  }

  /**
   * `re.sub(r"\s+", " ", s)`: every maximal run of whitespace becomes a single
   * space; everything else is kept.
   */
  function Collapse(s: string): string
    decreases |s|
  {
    if s == [] then []
    else if IsSpace(s[0]) then " " + Collapse(TrimStart(s))
    else [s[0]] + Collapse(s[1..])
  }

  /**
   * After the substitution the only whitespace left is single spaces, the
   * text starts with whitespace exactly when it did before, and the other
   * characters are all still there, in order.
   */
  lemma {:induction false} CollapseProperties(s: string)
    ensures SingleSpaced(Collapse(s))
    ensures Collapse(s) == [] <==> s == []
    ensures Collapse(s) != [] ==> (IsSpace(Collapse(s)[0]) <==> IsSpace(s[0]))
    ensures NonSpace(Collapse(s)) == NonSpace(s)
    decreases |s|
  {
    if s != [] {
      var r := Collapse(s);
      var tail := if IsSpace(s[0]) then TrimStart(s) else s[1..];
      CollapseProperties(tail);
      var rest := Collapse(tail);
      assert r == [r[0]] + rest;
      if IsSpace(s[0]) {
        TrimStartProperties(s);
      }
      assert rest != [] ==> !IsSpace(rest[0]) || !IsSpace(s[0]);
      forall i | 0 <= i < |r| - 1 ensures !SpacePair(r, i) {
        if i > 0 {
          assert !SpacePair(rest, i - 1);
        }
      }
      NonSpaceAppend([r[0]], rest);
      if IsSpace(s[0]) {
        NonSpaceOfTrimStart(s);
      } else {
        assert s == [s[0]] + s[1..];
        NonSpaceAppend([s[0]], s[1..]);
      }
    }
  }

  lemma {:induction false} NonSpaceOfTrimStart(s: string)
    ensures NonSpace(TrimStart(s)) == NonSpace(s)
    decreases |s|
  {
    if s != [] && IsSpace(s[0]) {
      NonSpaceOfTrimStart(s[1..]);
    }
  }

  lemma {:induction false} NonSpaceAppend(a: string, b: string)
    ensures NonSpace(a + b) == NonSpace(a) + NonSpace(b)
    decreases |a|
  {
    if a == [] {
      assert a + b == b;
    } else {
      assert (a + b)[1..] == a[1..] + b;
      NonSpaceAppend(a[1..], b);
    }
  }

  /** `_clean_text`: collapse whitespace runs to one space, then strip both ends. */
  function CleanText(text: string): string {
    if text == [] then [] else Strip(Collapse(text))
  }

  /**
   * Cleaned text has no whitespace at either end, no whitespace but single
   * spaces, and the same non-whitespace characters in the same order; it is
   * empty exactly when the input was all whitespace.
   */
  lemma CleanTextProperties(text: string)
    ensures text == [] ==> CleanText(text) == []
    ensures var r := CleanText(text); r == [] || (!IsSpace(r[0]) && !IsSpace(r[|r| - 1]))
    ensures SingleSpaced(CleanText(text))
    ensures NonSpace(CleanText(text)) == NonSpace(text)
    ensures CleanText(text) == [] <==> AllSpace(text)
  {
    if text != [] {
      CollapseProperties(text);
      CleanTextShape(Collapse(text));
      NonSpaceEmpty(text);
    } else {
      NonSpaceEmpty(text);
    }
  }

  /** A string has no non-whitespace character exactly when it is all whitespace. */
  lemma {:induction false} NonSpaceEmpty(s: string)
    ensures NonSpace(s) == [] <==> AllSpace(s)
    decreases |s|
  {
    if s != [] {
      NonSpaceEmpty(s[1..]);
      assert AllSpace(s) <==> IsSpace(s[0]) && AllSpace(s[1..]) by {
        assert forall i :: 0 < i < |s| ==> s[i] == s[1..][i - 1];
      }
    }
  }

  /** Stripping a single-spaced string keeps it single-spaced and keeps its non-whitespace characters. */
  lemma CleanTextShape(c: string)
    requires SingleSpaced(c)
    ensures var r := Strip(c);
      SingleSpaced(r) && NonSpace(r) == NonSpace(c) && (r == [] <==> NonSpace(c) == [])
  {
    var t := TrimStart(c);
    var r := TrimEnd(t);
    var lo := |c| - |t|;
    TrimStartProperties(c);
    TrimEndProperties(t);
    assert r == c[lo..lo + |r|] by {
      assert t == c[lo..];
      assert r == t[..|r|];
    }
    SingleSpacedInfix(c, lo, lo + |r|);
    NonSpaceOfStrip(c);
    NonSpaceEmpty(c);
  }

  lemma SingleSpacedInfix(s: string, lo: nat, hi: nat)
    requires SingleSpaced(s) && lo <= hi <= |s|
    ensures SingleSpaced(s[lo..hi])
  {
    var r := s[lo..hi];
    forall i | 0 <= i < |r| - 1 ensures !SpacePair(r, i) {
      assert !SpacePair(s, lo + i);
    }
  }

  /** `strip()` removes whitespace only. */
  lemma NonSpaceOfStrip(s: string)
    ensures NonSpace(Strip(s)) == NonSpace(s)
  {
    NonSpaceOfTrimStart(s);
    NonSpaceOfTrimEnd(TrimStart(s));
  }

  lemma {:induction false} NonSpaceOfTrimEnd(s: string)
    ensures NonSpace(TrimEnd(s)) == NonSpace(s)
    decreases |s|
  {
    if s != [] && IsSpace(s[|s| - 1]) {
      var init := s[..|s| - 1];
      NonSpaceOfTrimEnd(init);
      assert s == init + [s[|s| - 1]];
      NonSpaceAppend(init, [s[|s| - 1]]);
    }
  }

  /** A string that is already single-spaced is left alone by the regular-expression substitution. */
  lemma {:induction false} CollapseSingleSpaced(s: string)
    requires SingleSpaced(s)
    ensures Collapse(s) == s
    decreases |s|
  {
    if s != [] {
      assert SingleSpaced(s[1..]) by {
        forall i | 0 <= i < |s[1..]| - 1 ensures !SpacePair(s[1..], i) {
          assert !SpacePair(s, i + 1);
        }
      }
      if IsSpace(s[0]) {
        assert TrimStart(s) == s[1..] by {
          assert TrimStart(s) == TrimStart(s[1..]);
          if |s| > 1 {
            assert !SpacePair(s, 0);
            assert !IsSpace(s[1..][0]);
          }
        }
      }
      CollapseSingleSpaced(s[1..]);
    }
  }

  /** Cleaning already cleaned text changes nothing. */
  lemma CleanTextIdempotent(text: string)
    ensures CleanText(CleanText(text)) == CleanText(text)
  {
    var r := CleanText(text);
    CleanTextProperties(text);
    if r != [] {
      CollapseSingleSpaced(r);
      StripUnpadded(r);
    }
  }

  /** The length of the run of non-whitespace characters that starts `s`. */
  function WordEnd(s: string): (k: nat)
    ensures k <= |s|
    ensures s != [] && !IsSpace(s[0]) ==> k >= 1
    decreases |s|
  {
    if s == [] || IsSpace(s[0]) then 0 else 1 + WordEnd(s[1..])
  }

  /** The run `WordEnd` measures holds no whitespace and is maximal. */
  lemma {:induction false} WordEndProperties(s: string)
    ensures var k := WordEnd(s);
      (forall i :: 0 <= i < k ==> !IsSpace(s[i])) && (k == |s| || IsSpace(s[k]))
    decreases |s|
  {
    if s != [] && !IsSpace(s[0]) {
      WordEndProperties(s[1..]);
    }
  }

  /** `s.split()`: the maximal runs of non-whitespace characters of `s`, in order. */
  function Words(s: string): seq<string>
    decreases |s|
  {
    if s == [] then []
    else if IsSpace(s[0]) then Words(s[1..])
    else var k := WordEnd(s); [s[..k]] + Words(s[k..])
  }

  /** `" ".join(words)`. */
  function JoinWords(words: seq<string>): string {
    if words == [] then []
    else if |words| == 1 then words[0]
    else words[0] + " " + JoinWords(words[1..])
  }

  /** Every word is non-empty and holds no whitespace. */
  lemma {:induction false} WordsProperties(s: string)
    ensures forall w :: w in Words(s) ==> w != [] && forall i :: 0 <= i < |w| ==> !IsSpace(w[i])
    decreases |s|
  {
    if s != [] {
      if IsSpace(s[0]) {
        WordsProperties(s[1..]);
      } else {
        var k := WordEnd(s);
        WordEndProperties(s);
        WordsProperties(s[k..]);
      }
    }
  }

  /** Leading whitespace separates no word. */
  lemma {:induction false} WordsSkipSpace(s: string)
    ensures Words(TrimStart(s)) == Words(s)
    decreases |s|
  {
    if s != [] && IsSpace(s[0]) {
      WordsSkipSpace(s[1..]);
    }
  }

  /** The last character of the substituted text is whitespace exactly when the input's was. */
  lemma {:induction false} CollapseLast(s: string)
    requires s != []
    ensures Collapse(s) != [] && (IsSpace(Collapse(s)[|Collapse(s)| - 1]) <==> IsSpace(s[|s| - 1]))
    decreases |s|
  {
    if IsSpace(s[0]) {
      var t := TrimStart(s);
      TrimStartProperties(s);
      if t != [] {
        assert t[|t| - 1] == s[|s| - 1];
        CollapseLast(t);
      } else {
        assert IsSpace(s[|s| - 1]);
      }
    } else if |s| > 1 {
      CollapseLast(s[1..]);
    }
  }

  /**
   * A whitespace run between text that does not end in whitespace and text
   * that does not start with it becomes exactly one space; the text on either
   * side is substituted on its own.
   */
  lemma {:induction false} CollapseRun(a: string, ws: string, b: string)
    requires ws != [] && AllSpace(ws)
    requires a == [] || !IsSpace(a[|a| - 1])
    requires b == [] || !IsSpace(b[0])
    ensures Collapse(a + ws + b) == Collapse(a) + " " + Collapse(b)
    decreases |a|, 1
  {
    if a == [] {
      assert a + ws + b == ws + b;
      CollapseLeadingSpace(ws, b);
    } else if !IsSpace(a[0]) {
      var s := a + ws + b;
      assert s[0] == a[0] && s[1..] == a[1..] + ws + b;
      CollapseRun(a[1..], ws, b);
    } else {
      CollapseRunAfterSpace(a, ws, b);
    }
  }

  /** The case of `CollapseRun` where `a` starts with whitespace. */
  lemma {:induction false} CollapseRunAfterSpace(a: string, ws: string, b: string)
    requires ws != [] && AllSpace(ws)
    requires a != [] && IsSpace(a[0]) && !IsSpace(a[|a| - 1])
    requires b == [] || !IsSpace(b[0])
    ensures Collapse(a + ws + b) == Collapse(a) + " " + Collapse(b)
    decreases |a|, 0
  {
    var s := a + ws + b;
    var t := TrimStart(a);
    TrimStartLast(a);
    assert s[0] == a[0];
    assert TrimStart(s) == t + ws + b by {
      TrimStartKeepsTail(a, ws + b);
      assert s == a + (ws + b);
    }
    CollapseRun(t, ws, b);
  }

  lemma CollapseLeadingSpace(ws: string, b: string)
    requires ws != [] && AllSpace(ws)
    requires b == [] || !IsSpace(b[0])
    ensures Collapse(ws + b) == " " + Collapse(b)
  {
    assert (ws + b)[0] == ws[0];
    TrimStartSkipsSpace(ws, b);
  }

  /** A word is left alone by `_clean_text`. */
  lemma CleanWord(w: string)
    requires w != [] && forall i :: 0 <= i < |w| ==> !IsSpace(w[i])
    ensures Collapse(w) == w && CleanText(w) == w
  {
    CollapseSingleSpaced(w);
    StripUnpadded(w);
  }

  /** Leading whitespace makes no difference to `_clean_text`. */
  lemma CleanTextSkipsSpace(s: string)
    ensures CleanText(TrimStart(s)) == CleanText(s)
  {
    if s != [] && IsSpace(s[0]) {
      var c := Collapse(TrimStart(s));
      StripIgnoresPadding(" ", c, []);
      assert " " + c + [] == Collapse(s);
    }
  }

  /**
   * Between two pieces of text that border it with non-whitespace, a
   * whitespace run comes out of `_clean_text` as one space, and each piece is
   * cleaned on its own.
   */
  lemma CleanTextRun(a: string, ws: string, b: string)
    requires ws != [] && AllSpace(ws)
    requires a != [] && !IsSpace(a[|a| - 1])
    requires b != [] && !IsSpace(b[0])
    ensures CleanText(a + ws + b) == CleanText(a) + " " + CleanText(b)
  {
    var x, y := Collapse(a), Collapse(b);
    assert Collapse(a + ws + b) == x + " " + y by {
      CollapseRun(a, ws, b);
    }
    CollapseLast(a);
    CollapseProperties(b);
    StripJoin(x, y);
  }

  /**
   * `_clean_text(s)` is `" ".join(s.split())`: the words of `s`, in order,
   * separated by single spaces.
   */
  lemma {:induction false} CleanTextJoinsWords(s: string)
    ensures CleanText(s) == JoinWords(Words(s))
    decreases |s|, 1
  {
    var t := TrimStart(s);
    TrimStartProperties(s);
    WordsSkipSpace(s);
    CleanTextSkipsSpace(s);
    if t != [] {
      CleanTextJoinsWordsFrom(t);
    }
  }

  /** The inductive step of `CleanTextJoinsWords`, for text that starts with a word. */
  lemma {:induction false} CleanTextJoinsWordsFrom(t: string)
    requires t != [] && !IsSpace(t[0])
    ensures CleanText(t) == JoinWords(Words(t))
    decreases |t|, 0
  {
    var w, rest := SplitWord(t);
    var ws, u := SplitSpace(rest);
    if u == [] {
      assert rest == ws;
      CleanLastWord(w, rest);
    } else {
      assert ws != [] by {
        assert rest != [] && IsSpace(rest[0]) && !IsSpace(u[0]);
      }
      assert t == w + ws + u;
      CleanWord(w);
      CleanTextRun(w, ws, u);
      CleanTextJoinsWords(u);
      assert Words(u) != [] by {
        assert Words(u) == [u[..WordEnd(u)]] + Words(u[WordEnd(u)..]);
      }
      assert ([w] + Words(u))[1..] == Words(u);
    }
  }

  /** Text that starts with a word is that word, then text that is empty or starts with whitespace. */
  lemma SplitWord(t: string) returns (w: string, rest: string)
    requires t != [] && !IsSpace(t[0])
    ensures t == w + rest && Words(t) == [w] + Words(rest)
    ensures w != [] && forall i :: 0 <= i < |w| ==> !IsSpace(w[i])
    ensures rest == [] || IsSpace(rest[0])
  {
    var k := WordEnd(t);
    w, rest := t[..k], t[k..];
    WordEndProperties(t);
    assert t == w + rest;
  }

  /** Any text is a whitespace run, then text that is empty or starts with a word. */
  lemma SplitSpace(s: string) returns (ws: string, u: string)
    ensures s == ws + u && AllSpace(ws) && Words(s) == Words(u)
    ensures u == [] || !IsSpace(u[0])
  {
    u := TrimStart(s);
    ws := s[..|s| - |u|];
    TrimStartProperties(s);
    WordsSkipSpace(s);
  }

  /** A word followed only by whitespace cleans to the word. */
  lemma CleanLastWord(w: string, rest: string)
    requires w != [] && (forall i :: 0 <= i < |w| ==> !IsSpace(w[i])) && AllSpace(rest)
    ensures CleanText(w + rest) == w
  {
    CleanWord(w);
    if rest == [] {
      assert w + rest == w;
    } else {
      assert Collapse(w + rest) == w + " " by {
        assert w + rest == w + rest + [];
        CollapseRun(w, rest, []);
      }
      StripIgnoresPadding([], w, " ");
      assert [] + w + " " == w + " ";
    }
  }

  /** `page.extract_text() or ""`: a page whose extraction yields nothing counts as empty text. */
  function RawText(extracted: Option<string>): string {
    extracted.GetOr("")
  }

  /** The `source` of every page: `file_path.split("/")[-1]`. */
  function SourceName(filePath: string): string {
    AfterLast(filePath, '/')
  }

  /**
   * The source is the end of the path after its last `/`: it holds no `/`,
   * and it is the whole path when the path has none.
   */
  lemma SourceNameProperties(filePath: string)
    ensures var name := SourceName(filePath);
      && '/' !in name
      && |name| <= |filePath| && name == filePath[|filePath| - |name|..]
      && (|name| < |filePath| ==> filePath[|filePath| - |name| - 1] == '/')
      && ('/' !in filePath ==> name == filePath)
  {
    AfterLastProperties(filePath, '/');
  }

  /** A file saved as `dir/name` with no `/` in `name` is cited as `name`. */
  lemma SourceNameOfJoinedPath(dir: string, name: string)
    requires '/' !in name
    ensures SourceName(dir + "/" + name) == name
  {
    var path := dir + "/" + name;
    assert path[|path| - |name|..] == name;
    assert path[|path| - |name| - 1] == '/';
    AfterLastUnique(path, '/', name);
  }

  /** The page records of one file: numbered from 1, cleaned, all citing the file's name. */
  function PageRecords(filePath: string, rawPages: seq<Option<string>>): seq<Page> {
    seq(|rawPages|, i requires 0 <= i < |rawPages| =>
      Page(i + 1, CleanText(RawText(rawPages[i])), SourceName(filePath)))
  }

  /** The page loop of `extract_text_by_page`, over the pages' extracted texts. */
  method ExtractTextByPage(filePath: string, rawPages: seq<Option<string>>) returns (pages: seq<Page>)
    ensures |pages| == |rawPages|
    ensures forall i :: 0 <= i < |pages| ==>
      && pages[i].page == i + 1
      && pages[i].text == CleanText(RawText(rawPages[i]))
      && pages[i].source == SourceName(filePath)
    ensures pages == PageRecords(filePath, rawPages)
  {
    ghost var records := PageRecords(filePath, rawPages);
    pages := [];
    var source := SourceName(filePath);
    for i := 0 to |rawPages|
      invariant pages == records[..i]
    {
      var txt := RawText(rawPages[i]);
      pages := pages + [Page(i + 1, CleanText(txt), source)];
      assert records[..i + 1] == records[..i] + [records[i]];
    }
    assert records[..|rawPages|] == records;
  }

  /** What one PDF reader did with a file: the extracted texts of the pages it got through, and whether it then raised. */
  datatype ReaderRun = ReaderRun(extracted: seq<Option<string>>, raised: bool)

  /**
   * The reader flow of `extract_text_by_page` as it is written: the pages
   * pdfplumber appended before raising stay in the list, and the PyPDF2
   * fallback, when that library is installed, appends its pages after them.
   */
  function ExtractAsWritten(filePath: string, primary: ReaderRun, fallback: Option<ReaderRun>): seq<Page> {
    var first := PageRecords(filePath, primary.extracted);
    if !primary.raised || fallback.None? then first
    else first + PageRecords(filePath, fallback.value.extracted)
  }

  /** pdfplumber failing on the second page of a two-page file makes the first page appear twice, both times as page 1. */
  lemma AsWrittenRepeatsPages()
    ensures var pages := ExtractAsWritten("a.pdf", ReaderRun([Some("x")], true),
                                          Some(ReaderRun([Some("x"), Some("y")], false)));
      && |pages| == 3
      && pages[0].page == pages[1].page == 1
      && pages[0].text == pages[1].text
  {
    var first := PageRecords("a.pdf", [Some("x")]);
    var second := PageRecords("a.pdf", [Some("x"), Some("y")]);
    assert first[0].page == 1 && second[0].page == 1;
    assert first[0].text == second[0].text;
  }

  /**
   * The reader flow as intended: the pages of the first reader that gets
   * through the whole file, and no pages when neither does.
   */
  function ExtractPages(filePath: string, primary: ReaderRun, fallback: Option<ReaderRun>): (pages: seq<Page>)
    ensures forall i :: 0 <= i < |pages| ==> pages[i].page == i + 1 && pages[i].source == SourceName(filePath)
    ensures !primary.raised ==> |pages| == |primary.extracted|
    ensures primary.raised && fallback.Some? && !fallback.value.raised ==> |pages| == |fallback.value.extracted|
    ensures primary.raised && (fallback.None? || fallback.value.raised) ==> pages == []
  {
    if !primary.raised then PageRecords(filePath, primary.extracted)
    else if fallback.Some? && !fallback.value.raised then PageRecords(filePath, fallback.value.extracted)
    else []
  }

  /** `extract_text_by_page` with its reader fallback, running the page loop on the reader that got through. */
  method ExtractWithFallback(filePath: string, primary: ReaderRun, fallback: Option<ReaderRun>)
    returns (pages: seq<Page>)
    ensures pages == ExtractPages(filePath, primary, fallback)
  {
    if !primary.raised {
      pages := ExtractTextByPage(filePath, primary.extracted);
    } else if fallback.Some? && !fallback.value.raised {
      pages := ExtractTextByPage(filePath, fallback.value.extracted);
    } else {
      pages := [];
    }
  }
}
