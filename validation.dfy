/**
 * The two request validators of `app.py`: `_parse_size`, which reads the
 * configured upload limit, and `allowed_file`, which accepts a file name by
 * its extension.
 */
module Validation {
  import opened Wrappers
  import opened Text
  import opened Decimal

  /** The limit used when the configured size cannot be read: 10 MB. */
  const DefaultMaxFileSize: int := 10 * 1024 * 1024

  /** The accepted upload extensions, compared in lower case. */
  const AllowedExtensions: set<string> := {"pdf"}

  /**
   * `_parse_size`: after `strip()` and `upper()`, a trailing "MB" or "KB"
   * scales the integer in front of it by 1024 * 1024 or 1024, and a string
   * without unit is read as a plain integer. Whenever `int` refuses the
   * number the result is the 10 MB default.
   */
  function ParseSize(sizeStr: string): int {
    ParseUnits(Upper(Strip(sizeStr)))
  }

  /** The unit handling of `_parse_size`, on the stripped, upper-cased setting `s`. */
  function ParseUnits(s: string): int {
    if EndsWith(s, "MB") then
      match ParseInt(s[..|s| - 2])
      case Some(n) => n * 1024 * 1024
      case None => DefaultMaxFileSize
    else if EndsWith(s, "KB") then
      match ParseInt(s[..|s| - 2])
      case Some(n) => n * 1024
      case None => DefaultMaxFileSize
    else
      ParseInt(s).GetOr(DefaultMaxFileSize)
  }

  /** An integer written in decimal without a unit is read back as itself. */
  lemma ParseSizeOfInt(n: int)
    ensures ParseSize(IntToString(n)) == n
  {
    var d := IntToString(n);
    IntToStringShape(n);
    ParseIntOfIntToString(n);
    assert Upper(Strip(d)) == d by {
      StripUnpadded(d);
      UpperUnchanged(d);
    }
    assert !EndsWith(d, "MB") && !EndsWith(d, "KB") by {
      assert IsDigit(d[|d| - 1]);
    }
  }

  /** An integer followed by "MB" is read back as that many mebibytes. */
  lemma ParseSizeMegabytes(n: int)
    ensures ParseSize(IntToString(n) + "MB") == n * 1024 * 1024
  {
    IntToStringShape(n);
    ParseIntOfIntToString(n);
    UnitSuffix(IntToString(n), "MB");
  }

  /** An integer followed by "KB" is read back as that many kibibytes. */
  lemma ParseSizeKilobytes(n: int)
    ensures ParseSize(IntToString(n) + "KB") == n * 1024
  {
    var t := IntToString(n) + "KB";
    IntToStringShape(n);
    ParseIntOfIntToString(n);
    UnitSuffix(IntToString(n), "KB");
    assert t[|t| - 1] == 'B' && t[|t| - 2] == 'K';
  }

  /** `str(n)` followed by an upper-case unit is left alone by `strip()` and `upper()`, and the unit comes off again. */
  lemma UnitSuffix(d: string, unit: string)
    requires d != [] && (d[0] == '-' || IsDigit(d[0])) && forall k :: 1 <= k < |d| ==> IsDigit(d[k])
    requires unit == "MB" || unit == "KB"
    ensures var t := d + unit; Upper(Strip(t)) == t && EndsWith(t, unit) && t[..|t| - 2] == d
  {
    var t := d + unit;
    assert t[0] == d[0] && t[|t| - 1] == unit[1];
    StripUnpadded(t);
    assert forall k :: 0 <= k < |t| ==> !('a' <= t[k] <= 'z') by {
      forall k | 0 <= k < |t| ensures !('a' <= t[k] <= 'z') {
        if k < |d| { assert t[k] == d[k]; } else { assert t[k] == unit[k - |d|]; }
      }
    }
    UpperUnchanged(t);
    assert t[|t| - 2..] == unit;
    assert t[..|t| - 2] == d;
  }

  /** The configured default "10MB" is read as 10 MB, the same as the fallback. */
  lemma ParseSizeTenMegabytes()
    ensures ParseSize("10MB") == 10 * 1024 * 1024 == DefaultMaxFileSize
  {
    assert IntToString(10) == "10" by {
      assert NatToString(10) == NatToString(1) + [DigitChar(0)];
    }
    ParseSizeMegabytes(10);
    assert IntToString(10) + "MB" == "10MB";
  }

  /** Whitespace around the setting does not change the limit. */
  lemma ParseSizeIgnoresPadding(front: string, sizeStr: string, back: string)
    requires AllSpace(front) && AllSpace(back)
    ensures ParseSize(front + sizeStr + back) == ParseSize(sizeStr)
  {
    StripIgnoresPadding(front, sizeStr, back);
  }

  /** Two settings that differ only in letter case give the same limit ("mb", "Mb" and "MB" alike). */
  lemma ParseSizeIgnoresCase(a: string, b: string)
    requires Upper(a) == Upper(b)
    ensures ParseSize(a) == ParseSize(b)
  {
    StripUpper(a);
    StripUpper(b);
    UpperIdempotent(Strip(a));
    UpperIdempotent(Strip(b));
  }

  /** A setting with no decimal digit in it at all falls back to 10 MB. */
  lemma ParseSizeFallback(sizeStr: string)
    requires forall c :: c in sizeStr ==> !IsDigit(c)
    ensures ParseSize(sizeStr) == DefaultMaxFileSize
  {
    var s := Upper(Strip(sizeStr));
    assert forall c :: c in s ==> !IsDigit(c) by {
      StripKeepsChars(sizeStr);
      forall c | c in s ensures !IsDigit(c) {
        var k :| 0 <= k < |s| && s[k] == c;
        assert Strip(sizeStr)[k] in Strip(sizeStr);
      }
    }
    if EndsWith(s, "MB") || EndsWith(s, "KB") {
      NoDigitNoInt(s[..|s| - 2]);
    } else {
      NoDigitNoInt(s);
    }
  }

  /** `int` needs at least one digit. */
  lemma NoDigitNoInt(t: string)
    requires forall c :: c in t ==> !IsDigit(c)
    ensures ParseInt(t) == None
  {
    StripKeepsChars(t);
    var u := Strip(t);
    if u != [] && (u[0] == '+' || u[0] == '-') && |u| > 1 {
      assert u[1] in t;
      assert u[1..][0] == u[1];
    } else if u != [] {
      assert u[0] in t;
    }
  }

  /**
   * `allowed_file`: the name contains a dot, and the text after the last
   * dot, in lower case, is an allowed extension.
   */
  predicate AllowedFile(filename: string) {
    '.' in filename && Lower(AfterLast(filename, '.')) in AllowedExtensions
  }

  /** A name is accepted exactly when it ends in a dot and "pdf" in any letter case. */
  lemma AllowedFileIff(filename: string)
    ensures AllowedFile(filename) <==>
      |filename| >= 4 && filename[|filename| - 4] == '.' && Lower(filename[|filename| - 3..]) == "pdf"
  {
    var f := filename;
    var r := AfterLast(f, '.');
    AfterLastProperties(f, '.');
    if AllowedFile(f) {
      assert |r| == 3;
      assert r == f[|f| - 3..];
    }
    if |f| >= 4 && f[|f| - 4] == '.' && Lower(f[|f| - 3..]) == "pdf" {
      var x := f[|f| - 3..];
      assert '.' !in x by {
        forall k | 0 <= k < 3 ensures x[k] != '.' {
          assert Lower(x)[k] == LowerChar(x[k]);
        }
      }
      assert f[|f| - |x| - 1] == '.';
      AfterLastUnique(f, '.', x);
      assert f[|f| - 4] in f;
    }
  }
}
