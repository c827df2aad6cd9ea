/**
 * The parts of java.lang.String's behaviour that the task list relies on:
 * lower-casing, case-insensitive comparison, trim, replaceAll of a single
 * character, and split on a single-character delimiter. Case mapping is
 * modelled for ASCII letters only.
 */
module JavaText {

  /** Java's Character.toLowerCase restricted to ASCII: 'A'..'Z' become 'a'..'z'. */
  predicate IsUpperAscii(c: char)
  {
    'A' <= c <= 'Z'
  }

  function LowerChar(c: char): (r: char)
    ensures !IsUpperAscii(r)
    ensures IsUpperAscii(c) ==> r as int == c as int + 32
    ensures !IsUpperAscii(c) ==> r == c
  {
    if IsUpperAscii(c) then (c as int + 32) as char else c
  }

  /** String.toLowerCase, one character at a time. */
  function ToLowerCase(s: string): (r: string)
    ensures |r| == |s|
  {
    if s == [] then [] else [LowerChar(s[0])] + ToLowerCase(s[1..])
  }

  lemma {:induction false} ToLowerCaseAt(s: string, i: nat)
    requires i < |s|
    ensures |ToLowerCase(s)| == |s| && ToLowerCase(s)[i] == LowerChar(s[i])
  {
    if i > 0 {
      ToLowerCaseAt(s[1..], i - 1);
    }
  }

  /** String.replaceAll(from, to) for a pattern that is one plain character. */
  function ReplaceChar(s: string, from: char, to: char): (r: string)
    ensures |r| == |s|
  {
    if s == [] then []
    else [if s[0] == from then to else s[0]] + ReplaceChar(s[1..], from, to)
  }

  lemma {:induction false} ReplaceCharAt(s: string, from: char, to: char, i: nat)
    requires i < |s|
    ensures ReplaceChar(s, from, to)[i] == if s[i] == from then to else s[i]
  {
    if i > 0 {
      ReplaceCharAt(s[1..], from, to, i - 1);
    }
  }

  /** String.equalsIgnoreCase, with ASCII case folding: the strings agree once both are lower-cased. */
  function EqualsIgnoreCase(a: string, b: string): (eq: bool)
    ensures eq <==> ToLowerCase(a) == ToLowerCase(b)
  {
    LowerCaseEqual(a, b);
    |a| == |b| && forall i :: 0 <= i < |a| ==> LowerChar(a[i]) == LowerChar(b[i])
  }

  /** Comparing character by character after lower-casing is comparing the lower-cased strings. */
  lemma LowerCaseEqual(a: string, b: string)
    ensures (|a| == |b| && forall i :: 0 <= i < |a| ==> LowerChar(a[i]) == LowerChar(b[i]))
        <==> ToLowerCase(a) == ToLowerCase(b)
  {
    if |a| == |b| {
      forall i | 0 <= i < |a|
        ensures ToLowerCase(a)[i] == LowerChar(a[i]) && ToLowerCase(b)[i] == LowerChar(b[i])
      {
        ToLowerCaseAt(a, i);
        ToLowerCaseAt(b, i);
      }
    }
  }

  /**
   * Boolean.parseBoolean: true exactly when the text is "true" ignoring case
   * (a null argument cannot arise here, so it is not modelled).
   */
  function ParseBoolean(s: string): (b: bool)
    ensures b <==> ToLowerCase(s) == "true"
    ensures b ==> |s| == 4
  {
    assert ToLowerCase("true") == "true";
    EqualsIgnoreCase(s, "true")
  }

  lemma ParseBooleanOfLiterals()
    ensures ParseBoolean("true") && ParseBoolean("TRUE") && ParseBoolean("True")
    ensures !ParseBoolean("false") && !ParseBoolean("") && !ParseBoolean("yes")
  {
    assert LowerChar('f') != LowerChar('t');
    assert LowerChar('y') != LowerChar('t');
  }

  // ---------------------------------------------------------------- trim

  /** The characters String.trim removes: every code point up to U+0020. */
  predicate IsTrimmable(c: char)
  {
    c <= ' '
  }

  /** The first index at or after i whose character is kept: trim's forward scan. */
  function TrimStartIndex(s: string, i: nat): (lo: nat)
    requires i <= |s|
    ensures i <= lo <= |s|
    ensures forall k :: i <= k < lo ==> IsTrimmable(s[k])
    ensures lo < |s| ==> !IsTrimmable(s[lo])
    decreases |s| - i
  {
    if i < |s| && IsTrimmable(s[i]) then TrimStartIndex(s, i + 1) else i
  }

  /** The end of the kept part, scanning back from j but not past lo: trim's backward scan. */
  function TrimEndIndex(s: string, lo: nat, j: nat): (hi: nat)
    requires lo <= j <= |s|
    ensures lo <= hi <= j
    ensures forall k :: hi <= k < j ==> IsTrimmable(s[k])
    ensures lo < hi ==> !IsTrimmable(s[hi - 1])
  {
    if lo < j && IsTrimmable(s[j - 1]) then TrimEndIndex(s, lo, j - 1) else j
  }

  /** r is s[lo..lo + |r|], and all of s outside that slice is trimmable. */
  predicate TrimmedSliceAt(s: string, r: string, lo: int)
  {
    && 0 <= lo <= |s| - |r|
    && r == s[lo..lo + |r|]
    && (forall i :: 0 <= i < lo ==> IsTrimmable(s[i]))
    && (forall i :: lo + |r| <= i < |s| ==> IsTrimmable(s[i]))
  }

  /**
   * String.trim: skips the characters up to U+0020 from the front, then from
   * the back, and returns what lies between. The result is a slice that
   * starts and ends with a kept character, everything cut off being trimmable.
   */
  function Trim(s: string): (r: string)
    ensures |r| <= |s|
    ensures r != [] ==> !IsTrimmable(r[0]) && !IsTrimmable(r[|r| - 1])
    ensures r == [] <==> forall i :: 0 <= i < |s| ==> IsTrimmable(s[i])
    ensures exists lo :: TrimmedSliceAt(s, r, lo)
  {
    var lo := TrimStartIndex(s, 0);
    var hi := TrimEndIndex(s, lo, |s|);
    assert TrimmedSliceAt(s, s[lo..hi], lo);
    s[lo..hi]
  }

  lemma TrimIdempotent(s: string)
    ensures Trim(Trim(s)) == Trim(s)
  {
    var t := Trim(s);
    if t != [] {
      assert TrimStartIndex(t, 0) == 0;
      assert TrimEndIndex(t, 0, |t|) == |t|;
      assert t[0..|t|] == t;
    }
  }

  // ---------------------------------------------------------------- split

  /** Every field of s between occurrences of sep, empty fields included. */
  function Fields(s: string, sep: char): (r: seq<string>)
    ensures |r| >= 1
    ensures forall k :: 0 <= k < |r| ==> sep !in r[k]
  {
    if s == [] then [""]
    else if s[0] == sep then [""] + Fields(s[1..], sep)
    else
      var rest := Fields(s[1..], sep);
      [[s[0]] + rest[0]] + rest[1..]
  }

  /** The fields put back together, sep between neighbours. */
  function Join(fs: seq<string>, sep: char): string
  {
    if fs == [] then ""
    else if |fs| == 1 then fs[0]
    else fs[0] + [sep] + Join(fs[1..], sep)
  }

  lemma {:induction false} JoinFields(s: string, sep: char)
    ensures Join(Fields(s, sep), sep) == s
  {
    if s != [] {
      JoinFields(s[1..], sep);
      var rest := Fields(s[1..], sep);
      if s[0] == sep {
        assert Fields(s, sep)[1..] == rest;
      } else {
        var fs := Fields(s, sep);
        if |rest| == 1 {
          assert fs == [[s[0]] + rest[0]];
        } else {
          assert fs[1..] == rest[1..];
          assert Join(rest, sep) == rest[0] + [sep] + Join(rest[1..], sep);
        }
      }
    }
  }

  lemma {:induction false} FieldsNoSep(s: string, sep: char)
    requires sep !in s
    ensures Fields(s, sep) == [s]
  {
    if s != [] {
      assert s[0] != sep && sep !in s[1..];
      FieldsNoSep(s[1..], sep);
      assert [s[0]] + s[1..] == s;
    }
  }

  lemma {:induction false} FieldsAppend(a: string, sep: char, b: string)
    requires sep !in a
    ensures Fields(a + [sep] + b, sep) == [a] + Fields(b, sep)
  {
    if a == [] {
      assert a + [sep] + b == [sep] + b;
      assert ([sep] + b)[1..] == b;
    } else {
      assert (a + [sep] + b)[1..] == a[1..] + [sep] + b;
      FieldsAppend(a[1..], sep, b);
      assert [a[0]] + a[1..] == a;
    }
  }

  /** Drops the empty fields at the end, as split with limit 0 does. */
  function DropTrailingEmpty(fs: seq<string>): (r: seq<string>)
    ensures |r| <= |fs| && r == fs[..|r|]
    ensures r != [] ==> r[|r| - 1] != ""
    ensures forall k :: |r| <= k < |fs| ==> fs[k] == ""
  {
    if fs != [] && fs[|fs| - 1] == "" then DropTrailingEmpty(fs[..|fs| - 1]) else fs
  }

  /**
   * String.split with a one-character delimiter and limit 0: when the
   * delimiter does not occur the whole string is the only field (even when
   * it is empty); otherwise the fields, with trailing empty ones removed.
   * Leading empty fields are kept.
   */
  function Split(s: string, sep: char): (r: seq<string>)
    ensures forall k :: 0 <= k < |r| ==> sep !in r[k]
    ensures sep !in s ==> r == [s]
    ensures sep in s && r != [] ==> r[|r| - 1] != ""
  {
    if sep !in s then [s] else DropTrailingEmpty(Fields(s, sep))
  }

  /** Split undoes Join for two fields with no delimiter, the last non-empty. */
  lemma SplitTwo(a: string, b: string, sep: char)
    requires sep !in a && sep !in b && b != ""
    ensures Split(a + [sep] + b, sep) == [a, b]
  {
    var s := a + [sep] + b;
    assert s[|a|] == sep;
    FieldsAppend(a, sep, b);
    FieldsNoSep(b, sep);
    assert Fields(s, sep) == [a, b];
  }

  /** Split undoes Join for three fields with no delimiter, the last non-empty. */
  lemma SplitThree(a: string, b: string, c: string, sep: char)
    requires sep !in a && sep !in b && sep !in c && c != ""
    ensures Split(a + [sep] + b + [sep] + c, sep) == [a, b, c]
  {
    var tail := b + [sep] + c;
    var s := a + [sep] + tail;
    assert s == a + [sep] + b + [sep] + c;
    assert Fields(tail, sep) == [b, c] by {
      FieldsNoSep(c, sep);
      FieldsAppend(b, sep, c);
    }
    assert Fields(s, sep) == [a, b, c] by {
      FieldsAppend(a, sep, tail);
    }
    assert s[|a|] == sep;
  }

  /** The two Java split cases the line format relies on. */
  lemma {:induction false} SplitEdgeCases(x: string, sep: char)
    requires sep !in x && x != ""
    ensures Split(x + [sep], sep) == [x]
    ensures Split([sep] + x, sep) == ["", x]
  {
    FieldsAppend(x, sep, "");
    assert x + [sep] + "" == x + [sep];
    assert Fields(x + [sep], sep) == [x, ""];
    assert DropTrailingEmpty([x, ""]) == DropTrailingEmpty([x]);
    assert (x + [sep])[|x|] == sep;
    SplitTwo("", x, sep);
    assert "" + [sep] + x == [sep] + x;
  }
}
