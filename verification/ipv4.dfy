/** The IPv4 literal check of the service (`IP_REGEX` and `is_valid_ip`):
    a hand-written recogniser, the regular expression read alternative by
    alternative, and a plain description by splitting on dots, all shown
    to accept the same strings. */
module IPv4 {
  import opened Text

  /** The largest value an octet may have. */
  const MaxOctet := 255

  // ------------------------------------------- the pattern as written

  predicate IsZeroOrOne(c: char) {
    c == '0' || c == '1'
  }

  /** `[01]?[0-9][0-9]?`, with each optional part present or absent. */
  predicate ShortOctetPattern(o: string) {
    || (|o| == 1 && IsDigit(o[0]))
    || (|o| == 2 && IsZeroOrOne(o[0]) && IsDigit(o[1]))
    || (|o| == 2 && IsDigit(o[0]) && IsDigit(o[1]))
    || (|o| == 3 && IsZeroOrOne(o[0]) && IsDigit(o[1]) && IsDigit(o[2]))
  }

  /** `25[0-5]|2[0-4][0-9]|[01]?[0-9][0-9]?`, one octet of the pattern. */
  predicate OctetPattern(o: string) {
    || (|o| == 3 && o[0] == '2' && o[1] == '5' && '0' <= o[2] <= '5')
    || (|o| == 3 && o[0] == '2' && '0' <= o[1] <= '4' && IsDigit(o[2]))
    || ShortOctetPattern(o)
  }

  /** The whole pattern anchored at both ends, with `$` read strictly as
      the end of the string: three octets each followed by a dot, then a
      fourth octet. */
  ghost predicate MatchesPattern(s: string) {
    exists octets: seq<string> ::
      && |octets| == 4
      && (forall k :: 0 <= k < 4 ==> OctetPattern(octets[k]))
      && s == Join(octets, '.')
  }

  // --------------------------------------------- the plain description

  /** One to three ASCII digits whose value is at most 255. */
  predicate IsOctet(o: string) {
    1 <= |o| <= 3 && AllDigits(o) && DigitsValue(o) <= MaxOctet
  }

  predicate AllOctets(parts: seq<string>) {
    forall k :: 0 <= k < |parts| ==> IsOctet(parts[k])
  }

  /** Splitting on `.` gives exactly four pieces, each an octet. */
  predicate WellFormed(s: string) {
    |Split(s, '.')| == 4 && AllOctets(Split(s, '.'))
  }

  // ------------------------------------------ the hand-written recogniser

  /** Scans `rest` after `dots` separators, with `len` digits of value
      `value` read so far of the octet under way. */
  function ScanFrom(rest: string, dots: nat, len: nat, value: nat): bool {
    if |rest| == 0 then
      dots == 3 && 1 <= len && value <= MaxOctet
    else if rest[0] == '.' then
      1 <= len && value <= MaxOctet && dots < 3 && ScanFrom(rest[1..], dots + 1, 0, 0)
    else if IsDigit(rest[0]) then
      len < 3 && ScanFrom(rest[1..], dots, len + 1, value * 10 + DigitValue(rest[0]))
    else
      false
  }

  /** The strict recogniser: four dot-separated octets and nothing more. */
  function Recognise(s: string): bool {
    ScanFrom(s, 0, 0, 0)
  }

  /** `is_valid_ip`: Python's `$` also matches just before a final line
      feed, so one trailing `\n` is let through. */
  function IsValidIp(s: string): bool {
    Recognise(s) || (|s| > 0 && s[|s| - 1] == '\n' && Recognise(s[..|s| - 1]))
  }

  // ------------------------------------------------------------ proofs

  lemma DigitsHaveNoDot(o: string)
    requires AllDigits(o)
    ensures '.' !in o
  {
  }

  lemma ThreeDigitValue(o: string)
    requires AllDigits(o) && |o| == 3
    ensures DigitsValue(o) == 100 * DigitValue(o[0]) + 10 * DigitValue(o[1]) + DigitValue(o[2])
  {
    var a, b := o[..1], o[..2];
    assert b[..1] == a && a[..0] == [] && b[1] == o[1] && a[0] == o[0];
    assert AllDigits(a) && AllDigits(b);
    assert DigitsValue(a) == DigitValue(o[0]);
    assert DigitsValue(b) == 10 * DigitValue(o[0]) + DigitValue(o[1]);
    assert o[..|o| - 1] == b;
  }

  lemma TwoDigitValue(o: string)
    requires AllDigits(o) && |o| == 2
    ensures DigitsValue(o) == 10 * DigitValue(o[0]) + DigitValue(o[1])
  {
    var a := o[..1];
    assert a[..0] == [] && a[0] == o[0] && AllDigits(a);
    assert DigitsValue(a) == DigitValue(o[0]);
    assert o[..|o| - 1] == a;
  }

  /** An octet of three digits starts with 0, 1 or 2. */
  lemma OctetLeadingDigit(o: string)
    requires IsOctet(o) && |o| == 3
    ensures '0' <= o[0] <= '2'
  {
    ThreeDigitValue(o);
  }

  /** Each alternative of the octet pattern gives an octet, and every
      octet is matched by one of them. */
  lemma OctetPatternIsOctet(o: string)
    ensures OctetPattern(o) <==> IsOctet(o)
  {
    if |o| == 1 && AllDigits(o) {
      assert o[..|o| - 1] == [];
      assert DigitsValue(o) == DigitValue(o[0]);
    } else if |o| == 2 && AllDigits(o) {
      TwoDigitValue(o);
    } else if |o| == 3 && AllDigits(o) {
      ThreeDigitValue(o);
    } else if OctetPattern(o) {
      assert AllDigits(o);
    }
  }

  /** The invariant of the scan: with the digits `cur` of the octet under
      way already read and `dots` dots before them, the rest is accepted
      exactly when `cur + rest` splits into the missing number of octets. */
  lemma {:induction false} ScanFromCorrect(cur: string, rest: string, dots: nat)
    requires AllDigits(cur) && |cur| <= 3
    ensures ScanFrom(rest, dots, |cur|, DigitsValue(cur))
      <==> |Split(cur + rest, '.')| + dots == 4 && AllOctets(Split(cur + rest, '.'))
    decreases |rest|
  {
    DigitsHaveNoDot(cur);
    var parts := Split(cur + rest, '.');
    if |rest| == 0 {
      assert cur + rest == cur + "" == cur;
      SplitPrefix(cur, "", '.');
      assert Split("", '.') == [""];
      assert parts == [cur];
      assert AllOctets(parts) <==> IsOctet(cur) by {
        assert parts[0] == cur;
      }
    } else {
      var c := rest[0];
      SplitPrefix(cur, rest, '.');
      var tail := Split(rest[1..], '.');
      if c == '.' {
        assert Split(rest, '.') == [""] + tail;
        assert cur + "" == cur;
        assert parts == [cur] + tail;
        ScanFromCorrect("", rest[1..], dots + 1);
        assert "" + rest[1..] == rest[1..];
        assert AllOctets(parts) <==> IsOctet(cur) && AllOctets(tail) by {
          assert parts[0] == cur && |parts| == |tail| + 1;
          assert forall k :: 0 <= k < |tail| ==> parts[k + 1] == tail[k];
        }
      } else if IsDigit(c) {
        assert Split(rest, '.')[0] == [c] + tail[0];
        if |cur| < 3 {
          var next := cur + [c];
          assert next[..|next| - 1] == cur;
          assert AllDigits(next);
          assert cur + rest == next + rest[1..];
          ScanFromCorrect(next, rest[1..], dots);
        } else {
          assert |parts[0]| > 3;
        }
      } else {
        assert Split(rest, '.')[0] == [c] + tail[0];
        assert parts[0][|cur|] == c;
        assert !IsOctet(parts[0]);
      }
    }
  }

  /** The recogniser accepts exactly the well-formed addresses. */
  lemma RecogniseCorrect(s: string)
    ensures Recognise(s) <==> WellFormed(s)
  {
    ScanFromCorrect("", s, 0);
    assert "" + s == s;
  }

  /** The pattern read alternative by alternative accepts exactly the
      well-formed addresses. */
  lemma PatternCorrect(s: string)
    ensures MatchesPattern(s) <==> WellFormed(s)
  {
    if MatchesPattern(s) {
      var octets :| |octets| == 4 && (forall k :: 0 <= k < 4 ==> OctetPattern(octets[k]))
        && s == Join(octets, '.');
      forall k | 0 <= k < 4
        ensures IsOctet(octets[k]) && '.' !in octets[k]
      {
        OctetPatternIsOctet(octets[k]);
        DigitsHaveNoDot(octets[k]);
      }
      JoinSplit(octets, '.');
    }
    if WellFormed(s) {
      var parts := Split(s, '.');
      SplitJoin(s, '.');
      forall k | 0 <= k < 4
        ensures OctetPattern(parts[k])
      {
        OctetPatternIsOctet(parts[k]);
      }
      assert |parts| == 4 && (forall k :: 0 <= k < 4 ==> OctetPattern(parts[k])) && s == Join(parts, '.');
    }
  }

  /** `is_valid_ip` accepts a well-formed address, optionally followed by
      one line feed, and nothing else. */
  lemma IsValidIpSpec(s: string)
    ensures IsValidIp(s) <==>
      WellFormed(s) || (|s| > 0 && s[|s| - 1] == '\n' && WellFormed(s[..|s| - 1]))
  {
    RecogniseCorrect(s);
    if |s| > 0 {
      RecogniseCorrect(s[..|s| - 1]);
    }
  }

  /** On input that has been stripped, as the request handler supplies it,
      the trailing line feed cannot occur and `is_valid_ip` is exactly the
      well-formedness test. */
  lemma StrippedIsValidIp(host: string)
    ensures IsValidIp(Strip(host)) <==> WellFormed(Strip(host))
  {
    var h := Strip(host);
    StripSpec(host);
    IsValidIpSpec(h);
    assert |h| > 0 ==> IsSpace(h[|h| - 1]) || h[|h| - 1] != '\n';
  }

  // ------------------------------------------------------------ examples

  /** Any four octets joined by dots form an address the check accepts. */
  lemma DottedQuad(a: string, b: string, c: string, d: string)
    requires IsOctet(a) && IsOctet(b) && IsOctet(c) && IsOctet(d)
    ensures var s := a + "." + b + "." + c + "." + d;
      WellFormed(s) && IsValidIp(s)
  {
    var octets := [a, b, c, d];
    var s := a + "." + b + "." + c + "." + d;
    assert Join(octets, '.') == s by {
      assert octets[1..][1..][1..] == [d];
      assert Join(octets[1..][1..], '.') == c + "." + d;
      assert Join(octets[1..], '.') == b + "." + c + "." + d;
    }
    forall k | 0 <= k < 4
      ensures '.' !in octets[k]
    {
      DigitsHaveNoDot(octets[k]);
    }
    JoinSplit(octets, '.');
    RecogniseCorrect(s);
  }

  /** Leading zeros are accepted. */
  lemma LeadingZerosAccepted()
    ensures IsValidIp("001.2.3.4")
  {
    assert IsOctet("2") && IsOctet("3") && IsOctet("4");
    assert IsOctet("001") by {
      ThreeDigitValue("001");
    }
    DottedQuad("001", "2", "3", "4");
    assert "001" + "." + "2" + "." + "3" + "." + "4" == "001.2.3.4";
  }

  /** A public resolver address is accepted. */
  lemma ResolverAccepted()
    ensures IsValidIp("8.8.8.8")
  {
    assert IsOctet("8");
    DottedQuad("8", "8", "8", "8");
    assert "8" + "." + "8" + "." + "8" + "." + "8" == "8.8.8.8";
  }

  /** An address with the largest octet value is accepted. */
  lemma MaxOctetAccepted()
    ensures IsValidIp("10.255.255.1")
  {
    assert IsOctet("1");
    assert IsOctet("10") by {
      TwoDigitValue("10");
    }
    assert IsOctet("255") by {
      ThreeDigitValue("255");
    }
    DottedQuad("10", "255", "255", "1");
    assert "10" + "." + "255" + "." + "255" + "." + "1" == "10.255.255.1";
  }

  /** A well-formed address followed by a line feed passes `is_valid_ip`
      although it is not itself well formed: the line feed lands in the
      last part. */
  lemma TrailingLineFeedAccepted(s: string)
    requires WellFormed(s)
    ensures IsValidIp(s + "\n") && !WellFormed(s + "\n")
  {
    var t := s + "\n";
    assert t[..|t| - 1] == s;
    RecogniseCorrect(s);
    var p := Split(s, '.');
    SplitAppend(s, '\n', '.');
    var last := Split(t, '.')[3];
    assert last == p[3] + "\n";
    assert !IsDigit(last[|last| - 1]);
  }

  /** An instance: `1.2.3.4` with a line feed after it is accepted. */
  lemma TrailingLineFeedExample()
    ensures IsValidIp("1.2.3.4\n") && !WellFormed("1.2.3.4\n")
  {
    assert IsOctet("1") && IsOctet("2") && IsOctet("3") && IsOctet("4");
    DottedQuad("1", "2", "3", "4");
    assert "1" + "." + "2" + "." + "3" + "." + "4" == "1.2.3.4";
    TrailingLineFeedAccepted("1.2.3.4");
    assert "1.2.3.4" + "\n" == "1.2.3.4\n";
  }

  /** Octets above 255 are refused. */
  lemma OutOfRangeRejected()
    ensures !IsValidIp("999.1.1.1") && !IsValidIp("256.1.1.1")
  {
    assert ScanFrom("999.1.1.1", 0, 0, 0) == ScanFrom(".1.1.1", 0, 3, 999) by {
      assert "999.1.1.1"[1..] == "99.1.1.1";
      assert "99.1.1.1"[1..] == "9.1.1.1";
      assert "9.1.1.1"[1..] == ".1.1.1";
    }
    assert ScanFrom("256.1.1.1", 0, 0, 0) == ScanFrom(".1.1.1", 0, 3, 256) by {
      assert "256.1.1.1"[1..] == "56.1.1.1";
      assert "56.1.1.1"[1..] == "6.1.1.1";
      assert "6.1.1.1"[1..] == ".1.1.1";
    }
  }

  /** Three parts are refused: the input ends before the third dot. */
  lemma ThreePartsRejected()
    ensures !IsValidIp("1.2.3")
  {
    assert "1.2.3"[1..] == ".2.3" && ".2.3"[1..] == "2.3";
    assert "2.3"[1..] == ".3" && ".3"[1..] == "3" && "3"[1..] == "";
    assert ScanFrom("1.2.3", 0, 0, 0) == ScanFrom(".2.3", 0, 1, 1);
    assert ScanFrom(".2.3", 0, 1, 1) == ScanFrom("2.3", 1, 0, 0);
    assert ScanFrom("2.3", 1, 0, 0) == ScanFrom(".3", 1, 1, 2);
    assert ScanFrom(".3", 1, 1, 2) == ScanFrom("3", 2, 0, 0);
    assert ScanFrom("3", 2, 0, 0) == ScanFrom("", 2, 1, 3);
  }

  /** Five parts are refused: a fourth dot is not allowed. */
  lemma FivePartsRejected()
    ensures !IsValidIp("1.2.3.4.5")
  {
    FivePartsScan("1.2.3.4.5");
  }

  lemma FivePartsScan(s: string)
    requires s == "1.2.3.4.5"
    ensures !ScanFrom(s, 0, 0, 0)
  {
    assert s[1..] == ".2.3.4.5" && ".2.3.4.5"[1..] == "2.3.4.5";
    assert ScanFrom(s, 0, 0, 0) == ScanFrom(".2.3.4.5", 0, 1, 1);
    assert ScanFrom(".2.3.4.5", 0, 1, 1) == ScanFrom("2.3.4.5", 1, 0, 0);
    FivePartsTail("2.3.4.5");
  }

  lemma FivePartsTail(t: string)
    requires t == "2.3.4.5"
    ensures !ScanFrom(t, 1, 0, 0)
  {
    assert t[1..] == ".3.4.5" && ".3.4.5"[1..] == "3.4.5";
    assert "3.4.5"[1..] == ".4.5" && ".4.5"[1..] == "4.5" && "4.5"[1..] == ".5";
    assert ScanFrom(t, 1, 0, 0) == ScanFrom(".3.4.5", 1, 1, 2);
    assert ScanFrom(".3.4.5", 1, 1, 2) == ScanFrom("3.4.5", 2, 0, 0);
    assert ScanFrom("3.4.5", 2, 0, 0) == ScanFrom(".4.5", 2, 1, 3);
    assert ScanFrom(".4.5", 2, 1, 3) == ScanFrom("4.5", 3, 0, 0);
    assert ScanFrom("4.5", 3, 0, 0) == ScanFrom(".5", 3, 1, 4);
  }

  /** Empty parts, the empty string, names and IPv6 literals are refused. */
  lemma MalformedRejected()
    ensures !IsValidIp("1..2.3") && !IsValidIp("") && !IsValidIp("a.b.c.d") && !IsValidIp("::1")
  {
  }
}
