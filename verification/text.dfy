/** Character classes and string operations that the service relies on,
    restricted to ASCII: Python's `\d`, `\s`, `str.isspace`, `str.strip`,
    `str.lower`, `str.split`, `int()` on a digit string and the `in`
    substring test. */
module Text {

  /** An ASCII decimal digit: the part of `\d` and `int()` this model covers. */
  predicate IsDigit(c: char) {
    '0' <= c <= '9'
  }

  /** ASCII whitespace as `str.isspace` and `\s` see it: tab, line feed,
      vertical tab, form feed, carriage return, the separators 0x1C-0x1F
      and space. */
  predicate IsSpace(c: char) {
    c == ' ' || '\t' <= c <= '\r' || '\U{1C}' <= c <= '\U{1F}'
  }

  predicate AllDigits(s: string) {
    forall i :: 0 <= i < |s| ==> IsDigit(s[i])
  }

  predicate AllSpace(s: string) {
    forall i :: 0 <= i < |s| ==> IsSpace(s[i])
  }

  lemma SpaceCons(c: char, s: string)
    requires IsSpace(c) && AllSpace(s)
    ensures AllSpace([c] + s)
  {
    forall i | 0 <= i < |s| + 1
      ensures IsSpace(([c] + s)[i])
    {
      if i > 0 {
        assert ([c] + s)[i] == s[i - 1];
      }
    }
  }

  lemma SpaceSnoc(s: string, c: char)
    requires IsSpace(c) && AllSpace(s)
    ensures AllSpace(s + [c])
  {
    forall i | 0 <= i < |s| + 1
      ensures IsSpace((s + [c])[i])
    {
      if i < |s| {
        assert (s + [c])[i] == s[i];
      }
    }
  }

  function DigitValue(c: char): (d: nat)
    requires IsDigit(c)
    ensures d <= 9
  {
    c as int - '0' as int
  }

  /** The value `int()` gives a string of ASCII digits; leading zeros are
      allowed and the empty string is 0. */
  function DigitsValue(s: string): nat
    requires AllDigits(s)
  {
    if |s| == 0 then 0
    else DigitsValue(s[..|s| - 1]) * 10 + DigitValue(s[|s| - 1])
  }

  function ToLower(c: char): (r: char)
    ensures 'A' <= c <= 'Z' ==> r as int == c as int + 32
    ensures !('A' <= c <= 'Z') ==> r == c
  {
    if 'A' <= c <= 'Z' then (c as int + 32) as char else c
  }

  /** ASCII lower-casing, as `str.lower` and the `re.I` flag treat ASCII letters. */
  function Lower(s: string): (r: string)
    ensures |r| == |s|
    ensures forall i :: 0 <= i < |s| ==> r[i] == ToLower(s[i])
  {
    seq(|s|, i requires 0 <= i < |s| => ToLower(s[i]))
  }

  /** Python's `w in s` on strings: `w` occurs as a contiguous run of `s`. */
  predicate Contains(s: string, w: string) {
    exists i :: 0 <= i <= |s| - |w| && OccursAt(s, w, i)
  }

  predicate OccursAt(s: string, w: string, i: nat)
    requires i + |w| <= |s|
  {
    s[i..i + |w|] == w
  }

  lemma ContainsSuffix(prefix: string, w: string)
    ensures Contains(prefix + w, w)
  {
    var s := prefix + w;
    assert OccursAt(s, w, |prefix|);
  }

  // ---------------------------------------------------------------- strip

  /** `s` without its leading whitespace. */
  function TrimStart(s: string): string {
    if |s| > 0 && IsSpace(s[0]) then TrimStart(s[1..]) else s
  }

  /** `s` without its trailing whitespace. */
  function TrimEnd(s: string): string {
    if |s| > 0 && IsSpace(s[|s| - 1]) then TrimEnd(s[..|s| - 1]) else s
  }

  /** Python's `str.strip()` with no argument. */
  function Strip(s: string): string {
    TrimEnd(TrimStart(s))
  }

  /** `TrimStart` keeps a suffix, drops only whitespace before it, and
      leaves no whitespace at its front. */
  lemma {:induction false} TrimStartSpec(s: string)
    ensures var r := TrimStart(s);
      |r| <= |s| && r == s[|s| - |r|..] && AllSpace(s[..|s| - |r|])
      && (|r| == 0 || !IsSpace(r[0]))
  {
    if |s| > 0 && IsSpace(s[0]) {
      var t := s[1..];
      TrimStartSpec(t);
      var r := TrimStart(t);
      assert t[|t| - |r|..] == s[|s| - |r|..];
      assert s[..|s| - |r|] == [s[0]] + t[..|t| - |r|];
      SpaceCons(s[0], t[..|t| - |r|]);
    }
  }

  /** `TrimEnd` keeps a prefix, drops only whitespace after it, and
      leaves no whitespace at its end. */
  lemma {:induction false} TrimEndSpec(s: string)
    ensures var r := TrimEnd(s);
      |r| <= |s| && r == s[..|r|] && AllSpace(s[|r|..])
      && (|r| == 0 || !IsSpace(r[|r| - 1]))
  {
    if |s| > 0 && IsSpace(s[|s| - 1]) {
      var t := s[..|s| - 1];
      TrimEndSpec(t);
      var r := TrimEnd(t);
      assert t[..|r|] == s[..|r|];
      assert s[|r|..] == t[|r|..] + [s[|s| - 1]];
      SpaceSnoc(t[|r|..], s[|s| - 1]);
    }
  }

  /** `Strip` keeps a contiguous slice of its input, drops only whitespace
      around it, and leaves no whitespace at either end. */
  lemma StripSpec(s: string)
    ensures var r := Strip(s);
      exists i :: 0 <= i <= |s| - |r| && r == s[i..i + |r|]
        && AllSpace(s[..i]) && AllSpace(s[i + |r|..])
    ensures |Strip(s)| == 0 || (!IsSpace(Strip(s)[0]) && !IsSpace(Strip(s)[|Strip(s)| - 1]))
  {
    var t := TrimStart(s);
    TrimStartSpec(s);
    var r := TrimEnd(t);
    TrimEndSpec(t);
    var i := |s| - |t|;
    assert r == s[i..i + |r|];
    assert s[i + |r|..] == t[|r|..];
    if |r| > 0 {
      assert r[0] == t[0];
    }
  }

  /** A string with no whitespace at either end is its own strip. */
  lemma StripUnchanged(s: string)
    requires |s| == 0 || (!IsSpace(s[0]) && !IsSpace(s[|s| - 1]))
    ensures Strip(s) == s
  {
  }

  /** Stripping twice is stripping once. */
  lemma StripIdempotent(s: string)
    ensures Strip(Strip(s)) == Strip(s)
  {
    StripSpec(s);
    var r := Strip(s);
    assert TrimStart(r) == r;
  }

  // ------------------------------------------------------- split and join

  /** Python's `s.split(sep)`: the pieces between occurrences of `sep`,
      so that `n` separators give `n + 1` pieces, some of them empty. */
  function Split(s: string, sep: char): (parts: seq<string>)
    ensures |parts| >= 1
  {
    if |s| == 0 then [""]
    else
      var rest := Split(s[1..], sep);
      if s[0] == sep then [""] + rest
      else [[s[0]] + rest[0]] + rest[1..]
  }

  /** Python's `sep.join(parts)` for a non-empty list. */
  function Join(parts: seq<string>, sep: char): string
    requires |parts| >= 1
  {
    if |parts| == 1 then parts[0]
    else parts[0] + [sep] + Join(parts[1..], sep)
  }

  predicate NoSeparator(parts: seq<string>, sep: char) {
    forall i :: 0 <= i < |parts| ==> sep !in parts[i]
  }

  /** Splitting never leaves a separator inside a piece, and joining the
      pieces back gives the original string. */
  lemma {:induction false} SplitJoin(s: string, sep: char)
    ensures NoSeparator(Split(s, sep), sep)
    ensures Join(Split(s, sep), sep) == s
  {
    if |s| > 0 {
      SplitJoin(s[1..], sep);
      var rest := Split(s[1..], sep);
      if s[0] == sep {
        assert Split(s, sep)[1..] == rest;
        assert s == [s[0]] + s[1..];
      } else {
        var parts := Split(s, sep);
        assert parts[1..] == rest[1..];
        if |rest| == 1 {
          assert Join(parts, sep) == [s[0]] + rest[0];
        } else {
          assert Join(rest, sep) == rest[0] + [sep] + Join(rest[1..], sep);
        }
        assert s == [s[0]] + s[1..];
      }
    }
  }

  /** Splitting `x` followed by `y`, where `x` holds no separator, glues
      `x` to the front of the first piece of `y`. */
  lemma {:induction false} SplitPrefix(x: string, y: string, sep: char)
    requires sep !in x
    ensures Split(x + y, sep) == [x + Split(y, sep)[0]] + Split(y, sep)[1..]
  {
    if |x| > 0 {
      SplitPrefix(x[1..], y, sep);
      var parts := Split(y, sep);
      var rest := Split(x[1..] + y, sep);
      assert (x + y)[1..] == x[1..] + y;
      assert (x + y)[0] == x[0] != sep;
      assert Split(x + y, sep) == [[x[0]] + rest[0]] + rest[1..];
      assert rest[0] == x[1..] + parts[0];
      assert rest[1..] == parts[1..];
      assert [x[0]] + (x[1..] + parts[0]) == x + parts[0];
    } else {
      var parts := Split(y, sep);
      assert x + y == y;
      assert x + parts[0] == parts[0];
      assert parts == [parts[0]] + parts[1..];
    }
  }

  /** Appending a character other than the separator extends the last
      piece and leaves the others alone. */
  lemma {:induction false} SplitAppend(s: string, c: char, sep: char)
    requires c != sep
    ensures var p := Split(s, sep);
      Split(s + [c], sep) == p[..|p| - 1] + [p[|p| - 1] + [c]]
  {
    var p := Split(s, sep);
    var q := Split(s + [c], sep);
    if |s| == 0 {
      assert s + [c] == [c];
      SplitSingle(c, sep);
      assert p == [""];
      assert p[..0] + [p[0] + [c]] == [[c]];
    } else {
      var r := Split(s[1..], sep);
      SplitAppend(s[1..], c, sep);
      assert (s + [c])[1..] == s[1..] + [c];
      var r' := Split(s[1..] + [c], sep);
      if s[0] == sep {
        assert p == [""] + r && q == [""] + r';
      } else {
        SplitAppendGlued(s[0], r, r', c);
      }
    }
  }

  /** A single character other than the separator is one piece. */
  lemma SplitSingle(c: char, sep: char)
    requires c != sep
    ensures Split([c], sep) == [[c]]
  {
    assert [c][1..] == [];
    var rest := Split([], sep);
    assert rest == [""];
    assert [c] + rest[0] == [c];
    assert rest[1..] == [];
  }

  /** The step of `SplitAppend` where the first character is glued to the
      first piece. */
  lemma SplitAppendGlued(x: char, r: seq<string>, r': seq<string>, c: char)
    requires |r| >= 1 && r' == r[..|r| - 1] + [r[|r| - 1] + [c]]
    ensures var p := [[x] + r[0]] + r[1..];
      [[x] + r'[0]] + r'[1..] == p[..|p| - 1] + [p[|p| - 1] + [c]]
  {
    if |r| == 1 {
      assert [x] + (r[0] + [c]) == [x] + r[0] + [c];
    } else {
      assert r'[0] == r[0];
      assert r'[1..] == r[1..|r| - 1] + [r[|r| - 1] + [c]];
    }
  }

  /** Joining pieces that hold no separator and splitting again gives the
      pieces back. */
  lemma {:induction false} JoinSplit(parts: seq<string>, sep: char)
    requires |parts| >= 1 && NoSeparator(parts, sep)
    ensures Split(Join(parts, sep), sep) == parts
  {
    if |parts| == 1 {
      SplitPrefix(parts[0], "", sep);
      assert parts[0] + "" == parts[0];
    } else {
      var tail := Join(parts[1..], sep);
      JoinSplit(parts[1..], sep);
      SplitPrefix(parts[0], [sep] + tail, sep);
      assert parts[0] + [sep] + tail == parts[0] + ([sep] + tail);
      assert ([sep] + tail)[1..] == tail;
      assert Split([sep] + tail, sep) == [""] + Split(tail, sep);
      assert parts[0] + "" == parts[0];
      assert parts == [parts[0]] + parts[1..];
    }
  }
}
