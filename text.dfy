/**
 * Python's string primitives that the core relies on: the whitespace class
 * (shared by `str.isspace`, `str.strip` and the regular-expression class `\s`
 * on `str`), stripping, ASCII case mapping, and "the text after the last
 * separator" (`s.split(sep)[-1]`, `s.rsplit(sep, 1)[1]`).
 */
module Text {

  /** The characters Python treats as whitespace. */
  predicate IsSpace(c: char) {
    || ('\t' <= c <= '\r')
    || ('\U{1C}' <= c <= ' ')
    || c == '\U{85}' || c == '\U{A0}' || c == '\U{1680}'
    || ('\U{2000}' <= c <= '\U{200A}')
    || c == '\U{2028}' || c == '\U{2029}' || c == '\U{202F}' || c == '\U{205F}'
    || c == '\U{3000}'
  }

  predicate AllSpace(s: string) {
    forall i :: 0 <= i < |s| ==> IsSpace(s[i])
  }

  /** `s.lstrip()`: drops the leading whitespace, and only that (see `TrimStartProperties`). */
  function TrimStart(s: string): (r: string)
    ensures |r| <= |s|
  {
    if s != [] && IsSpace(s[0]) then TrimStart(s[1..]) else s
  }

  /** `lstrip()` returns a suffix that does not start with whitespace, and everything it dropped is whitespace. */
  lemma {:induction false} TrimStartProperties(s: string)
    ensures var r := TrimStart(s);
      && r == s[|s| - |r|..]
      && (r == [] || !IsSpace(r[0]))
      && forall i :: 0 <= i < |s| - |r| ==> IsSpace(s[i])
    decreases |s|
  {
    if s != [] && IsSpace(s[0]) {
      TrimStartProperties(s[1..]);
    }
  }

  /** `s.rstrip()`: drops the trailing whitespace, and only that (see `TrimEndProperties`). */
  function TrimEnd(s: string): (r: string)
    ensures |r| <= |s|
  {
    if s != [] && IsSpace(s[|s| - 1]) then TrimEnd(s[..|s| - 1]) else s
  }

  /** `rstrip()` returns a prefix that does not end with whitespace, and everything it dropped is whitespace. */
  lemma {:induction false} TrimEndProperties(s: string)
    ensures var r := TrimEnd(s);
      && r == s[..|r|]
      && (r == [] || !IsSpace(r[|r| - 1]))
      && forall i :: |r| <= i < |s| ==> IsSpace(s[i])
    decreases |s|
  {
    if s != [] && IsSpace(s[|s| - 1]) {
      TrimEndProperties(s[..|s| - 1]);
    }
  }

  /** `s.strip()`: the part of `s` between its leading and trailing whitespace. */
  function Strip(s: string): (r: string)
    ensures r == [] || (!IsSpace(r[0]) && !IsSpace(r[|r| - 1]))
    ensures r == [] <==> AllSpace(s)
  {
    TrimStartProperties(s);
    TrimEndProperties(TrimStart(s));
    TrimEnd(TrimStart(s))
  }

  /**
   * Together with `StripIgnoresPadding`: `strip()` returns exactly the part of
   * a string left when the whitespace around it is removed.
   */
  lemma StripUnpadded(s: string)
    requires s == [] || (!IsSpace(s[0]) && !IsSpace(s[|s| - 1]))
    ensures Strip(s) == s
  {
  }

  /** Whitespace around `s` does not change what `strip()` returns. */
  lemma {:induction false} StripIgnoresPadding(front: string, s: string, back: string)
    requires AllSpace(front) && AllSpace(back)
    ensures Strip(front + s + back) == Strip(s)
  {
    assert front + s + back == front + (s + back);
    TrimStartSkipsSpace(front, s + back);
    if TrimStart(s) == [] {
      TrimStartProperties(s);
      assert AllSpace(s + back);
    } else {
      TrimStartKeepsTail(s, back);
      TrimEndSkipsSpace(TrimStart(s), back);
    }
  }

  lemma {:induction false} TrimStartSkipsSpace(front: string, s: string)
    requires AllSpace(front)
    ensures TrimStart(front + s) == TrimStart(s)
    decreases |front|
  {
    if front != [] {
      assert (front + s)[1..] == front[1..] + s;
      TrimStartSkipsSpace(front[1..], s);
    } else {
      assert front + s == s;
    }
  }

  lemma {:induction false} TrimStartKeepsTail(s: string, back: string)
    requires TrimStart(s) != []
    ensures TrimStart(s + back) == TrimStart(s) + back
    decreases |s|
  {
    if IsSpace(s[0]) {
      assert TrimStart(s) == TrimStart(s[1..]);
      assert TrimStart(s + back) == TrimStart(s[1..] + back) by {
        assert (s + back)[0] == s[0];
        assert (s + back)[1..] == s[1..] + back;
      }
      TrimStartKeepsTail(s[1..], back);
    } else {
      assert TrimStart(s + back) == s + back by {
        assert (s + back)[0] == s[0];
      }
    }
  }

  /** `lstrip()` of text that ends in non-whitespace keeps that last character, and drops something when the text starts with whitespace. */
  lemma TrimStartLast(s: string)
    requires s != [] && !IsSpace(s[|s| - 1])
    ensures var r := TrimStart(s); r != [] && r[|r| - 1] == s[|s| - 1] && (IsSpace(s[0]) ==> |r| < |s|)
  {
    TrimStartProperties(s);
  }

  lemma {:induction false} TrimEndSkipsSpace(s: string, back: string)
    requires AllSpace(back)
    ensures TrimEnd(s + back) == TrimEnd(s)
    decreases |back|
  {
    if back != [] {
      var b := back[..|back| - 1];
      assert (s + back)[..|s + back| - 1] == s + b;
      TrimEndSkipsSpace(s, b);
    } else {
      assert s + back == s;
    }
  }

  /** Stripping two pieces joined by one space strips each piece, when the space borders non-whitespace on both sides. */
  lemma StripJoin(x: string, y: string)
    requires x != [] && !IsSpace(x[|x| - 1])
    requires y != [] && !IsSpace(y[0])
    ensures Strip(x + " " + y) == Strip(x) + " " + Strip(y)
  {
    var p := TrimStart(x);
    TrimStartProperties(x);
    assert p != [] && p[|p| - 1] == x[|x| - 1];
    assert TrimStart(x + " " + y) == p + " " + y by {
      TrimStartKeepsTail(x, " " + y);
      assert x + " " + y == x + (" " + y);
    }
    assert TrimEnd(p + " " + y) == p + " " + TrimEnd(y) by {
      TrimEndProperties(y);
      TrimEndKeepsHead(p + " ", y);
    }
    assert TrimEnd(p) == p;
    assert TrimStart(y) == y;
  }

  lemma {:induction false} TrimEndKeepsHead(front: string, s: string)
    requires TrimEnd(s) != []
    ensures TrimEnd(front + s) == front + TrimEnd(s)
    decreases |s|
  {
    var fs := front + s;
    assert fs[|fs| - 1] == s[|s| - 1];
    if IsSpace(s[|s| - 1]) {
      var init := s[..|s| - 1];
      assert fs[..|fs| - 1] == front + init;
      TrimEndKeepsHead(front, init);
    }
  }

  /** Python's `str.upper()` restricted to ASCII letters. */
  function UpperChar(c: char): char {
    if 'a' <= c <= 'z' then (c as int - 'a' as int + 'A' as int) as char else c
  }

  /** Python's `str.lower()` restricted to ASCII letters. */
  function LowerChar(c: char): char {
    if 'A' <= c <= 'Z' then (c as int - 'A' as int + 'a' as int) as char else c
  }

  function Upper(s: string): (r: string)
    ensures |r| == |s|
  {
    seq(|s|, i requires 0 <= i < |s| => UpperChar(s[i]))
  }

  function Lower(s: string): (r: string)
    ensures |r| == |s|
  {
    seq(|s|, i requires 0 <= i < |s| => LowerChar(s[i]))
  }

  /** Case mapping never turns whitespace into non-whitespace or back, so it commutes with `strip()`. */
  lemma {:induction false} StripUpper(s: string)
    ensures Strip(Upper(s)) == Upper(Strip(s))
  {
    TrimStartUpper(s);
    TrimEndUpper(TrimStart(s));
  }

  lemma {:induction false} TrimStartUpper(s: string)
    ensures TrimStart(Upper(s)) == Upper(TrimStart(s))
    decreases |s|
  {
    if s != [] {
      var u := Upper(s);
      assert u[1..] == Upper(s[1..]);
      UpperKeepsSpace(s[0]);
      if IsSpace(s[0]) {
        TrimStartUpper(s[1..]);
      }
    }
  }

  lemma {:induction false} TrimEndUpper(s: string)
    ensures TrimEnd(Upper(s)) == Upper(TrimEnd(s))
    decreases |s|
  {
    if s != [] {
      var u, init := Upper(s), s[..|s| - 1];
      assert u[..|s| - 1] == Upper(init);
      UpperKeepsSpace(s[|s| - 1]);
      if IsSpace(s[|s| - 1]) {
        TrimEndUpper(init);
      }
    }
  }

  lemma UpperKeepsSpace(c: char)
    ensures IsSpace(UpperChar(c)) <==> IsSpace(c)
  {
  }

  /** Stripping only removes characters: whatever is in `strip()`'s result was in its argument. */
  lemma StripKeepsChars(s: string)
    ensures forall c :: c in Strip(s) ==> c in s
  {
    TrimStartProperties(s);
    var u := TrimStart(s);
    TrimEndProperties(u);
    forall c | c in Strip(s) ensures c in s {
      var k :| 0 <= k < |Strip(s)| && Strip(s)[k] == c;
      assert Strip(s)[k] == u[k];
      assert u[k] == s[|s| - |u| + k];
    }
  }

  /** `s.endswith(suffix)`. */
  predicate EndsWith(s: string, suffix: string) {
    |suffix| <= |s| && s[|s| - |suffix|..] == suffix
  }

  /** A string without lower-case ASCII letters is its own upper case. */
  lemma UpperUnchanged(s: string)
    requires forall i :: 0 <= i < |s| ==> !('a' <= s[i] <= 'z')
    ensures Upper(s) == s
  {
  }

  lemma UpperIdempotent(s: string)
    ensures Upper(Upper(s)) == Upper(s)
  {
  }

  /**
   * The text after the last `sep` in `s`, or all of `s` when `sep` does not
   * occur: Python's `s.split(sep)[-1]`, and `s.rsplit(sep, 1)[1]` when `sep` occurs.
   */
  function AfterLast(s: string, sep: char): string {
    if s == [] || s[|s| - 1] == sep then [] else AfterLast(s[..|s| - 1], sep) + [s[|s| - 1]]
  }

  /**
   * `AfterLast(s, sep)` is a suffix of `s` without `sep` in it, and it is
   * preceded by `sep` unless it is all of `s`.
   */
  lemma {:induction false} AfterLastProperties(s: string, sep: char)
    ensures var r := AfterLast(s, sep);
      && sep !in r
      && |r| <= |s| && r == s[|s| - |r|..]
      && (|r| < |s| ==> s[|s| - |r| - 1] == sep)
  {
    if s != [] && s[|s| - 1] != sep {
      var init := s[..|s| - 1];
      AfterLastProperties(init, sep);
      var r' := AfterLast(init, sep);
      var r := AfterLast(s, sep);
      assert r == r' + [s[|s| - 1]];
      assert sep !in r by {
        forall i | 0 <= i < |r| ensures r[i] != sep {
          if i < |r'| { assert r[i] == r'[i]; }
        }
      }
      assert r == s[|s| - |r|..] by {
        assert init[|init| - |r'|..] == s[|s| - |r|..|s| - 1];
      }
      if |r| < |s| {
        assert s[|s| - |r| - 1] == init[|init| - |r'| - 1];
      }
    }
  }

  /** The three facts of `AfterLastProperties` single out the result. */
  lemma AfterLastUnique(s: string, sep: char, r: string)
    requires sep !in r && |r| <= |s| && r == s[|s| - |r|..]
    requires |r| < |s| ==> s[|s| - |r| - 1] == sep
    ensures AfterLast(s, sep) == r
  {
    AfterLastProperties(s, sep);
  }
}
