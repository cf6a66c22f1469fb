/** Reading the number of echo replies out of the ping utility's summary
    (the parse in `ping_host`). The two regular expressions are written as
    scanners tried at one position, `re.search` as a leftmost search, and
    each scanner is tied to a declarative description of its matches. */
module ReceivedCount {
  import opened Text
  import opened Wrappers

  /** The word both summary patterns are built around. */
  const Word := "received"

  /** The word, in any letter case, occurs at position `j`. */
  predicate WordAt(s: string, j: nat) {
    j + |Word| <= |s| && Lower(s[j..j + |Word|]) == Word
  }

  // ------------------------------------------------------------- runs

  /** The length of the run of digits that starts at `i`. */
  function DigitRun(s: string, i: nat): (k: nat)
    requires i <= |s|
    ensures i + k <= |s|
    decreases |s| - i
  {
    if i < |s| && IsDigit(s[i]) then 1 + DigitRun(s, i + 1) else 0
  }

  /** The length of the run of whitespace that starts at `i`. */
  function SpaceRun(s: string, i: nat): (k: nat)
    requires i <= |s|
    ensures i + k <= |s|
    decreases |s| - i
  {
    if i < |s| && IsSpace(s[i]) then 1 + SpaceRun(s, i + 1) else 0
  }

  /** The digit run holds only digits and cannot be extended. */
  lemma {:induction false} DigitRunDigits(s: string, i: nat, k: nat)
    requires i <= |s| && k == DigitRun(s, i)
    ensures i + k <= |s| && forall j :: i <= j < i + k ==> IsDigit(s[j])
    ensures i + k == |s| || !IsDigit(s[i + k])
    decreases |s| - i
  {
    if k > 0 {
      DigitRunDigits(s, i + 1, k - 1);
    }
  }

  /** The whitespace run holds only whitespace and cannot be extended. */
  lemma {:induction false} SpaceRunSpaces(s: string, i: nat, k: nat)
    requires i <= |s| && k == SpaceRun(s, i)
    ensures i + k <= |s| && forall j :: i <= j < i + k ==> IsSpace(s[j])
    ensures i + k == |s| || !IsSpace(s[i + k])
    decreases |s| - i
  {
    if k > 0 {
      SpaceRunSpaces(s, i + 1, k - 1);
    }
  }

  /** A run of digits that cannot be extended is the digit run. */
  lemma {:induction false} DigitRunUnique(s: string, i: nat, k: nat)
    requires i + k <= |s| && AllDigits(s[i..i + k])
    requires i + k == |s| || !IsDigit(s[i + k])
    ensures DigitRun(s, i) == k
    decreases k
  {
    if k > 0 {
      assert s[i..i + k][0] == s[i];
      assert s[i + 1..i + k] == s[i..i + k][1..];
      DigitRunUnique(s, i + 1, k - 1);
    }
  }

  /** A run of whitespace that cannot be extended is the whitespace run. */
  lemma {:induction false} SpaceRunUnique(s: string, i: nat, k: nat)
    requires i + k <= |s| && AllSpace(s[i..i + k])
    requires i + k == |s| || !IsSpace(s[i + k])
    ensures SpaceRun(s, i) == k
    decreases k
  {
    if k > 0 {
      assert s[i..i + k][0] == s[i];
      assert s[i + 1..i + k] == s[i..i + k][1..];
      SpaceRunUnique(s, i + 1, k - 1);
    }
  }

  // ------------------------------------------------------ the scanners

  /** `(\d+)\s+received` with `re.I`, tried at position `i`: the value of
      the digit group when the pattern matches there. */
  function UnixAt(s: string, i: nat): Option<nat> {
    if i > |s| then None
    else
      var k := DigitRun(s, i);
      if k == 0 then None
      else
        var w := SpaceRun(s, i + k);
        var j := i + k + w;
        if w == 0 || !WordAt(s, j) then None
        else
          DigitRunDigits(s, i, k);
          Some(DigitsValue(s[i..i + k]))
  }

  /** `Received\s*=\s*(\d+)` with `re.I`, tried at position `i`: the value
      of the digit group when the pattern matches there. */
  function WindowsAt(s: string, i: nat): Option<nat> {
    if !WordAt(s, i) then None
    else EqualsAt(s, i + |Word| + SpaceRun(s, i + |Word|))
  }

  /** The rest of the second pattern, `=\s*(\d+)`, tried at position `e`. */
  function EqualsAt(s: string, e: nat): Option<nat>
    requires e <= |s|
  {
    if e == |s| || s[e] != '=' then None
    else NumberAt(s, e + 1 + SpaceRun(s, e + 1))
  }

  /** The greedy group `(\d+)` at position `d`. */
  function NumberAt(s: string, d: nat): Option<nat>
    requires d <= |s|
  {
    var k := DigitRun(s, d);
    DigitRunDigits(s, d, k);
    if k == 0 then None else Some(DigitsValue(s[d..d + k]))
  }

  /** `re.search`: what `at` gives at the first position from `from` on
      where it matches, or nothing. */
  function Search(s: string, from: nat, at: (string, nat) -> Option<nat>): Option<nat>
    decreases |s| + 1 - from
  {
    if from > |s| then None
    else if at(s, from).Some? then at(s, from)
    else Search(s, from + 1, at)
  }

  /** The received count of `ping_host`: the branch is chosen by a
      case-sensitive test for the word, the chosen pattern is searched
      case-insensitively, and no match counts as zero. */
  function ParseReceived(output: string): nat {
    var found :=
      if Contains(output, Word) then Search(output, 0, UnixAt)
      else Search(output, 0, WindowsAt);
    found.GetOr(0)
  }

  // ----------------------------------------- what a match looks like

  /** `(\d+)\s+received` matches at `i` with `k` digits and `w` whitespace
      characters before the word, which may be in any letter case. */
  ghost predicate UnixMatch(s: string, i: nat, k: nat, w: nat) {
    && 1 <= k && 1 <= w && i + k + w <= |s|
    && AllDigits(s[i..i + k])
    && AllSpace(s[i + k..i + k + w])
    && WordAt(s, i + k + w)
  }

  /** `Received\s*=\s*(\d+)` matches at `i` with `w1` and `w2` whitespace
      characters around the `=` and a group of `k` digits; `\d+` is greedy,
      so the group is the whole digit run. */
  ghost predicate WindowsMatch(s: string, i: nat, w1: nat, w2: nat, k: nat) {
    var e := i + |Word| + w1;
    var d := e + 1 + w2;
    && 1 <= k && d + k <= |s|
    && WordAt(s, i)
    && AllSpace(s[i + |Word|..e])
    && s[e] == '='
    && AllSpace(s[e + 1..d])
    && AllDigits(s[d..d + k])
    && (d + k == |s| || !IsDigit(s[d + k]))
  }

  /** The leftmost match of the first pattern. */
  ghost predicate FirstUnixMatch(s: string, i: nat, k: nat, w: nat) {
    UnixMatch(s, i, k, w) && forall j: nat, k': nat, w': nat :: j < i ==> !UnixMatch(s, j, k', w')
  }

  /** The leftmost match of the second pattern. */
  ghost predicate FirstWindowsMatch(s: string, i: nat, w1: nat, w2: nat, k: nat) {
    WindowsMatch(s, i, w1, w2, k)
      && forall j: nat, w1': nat, w2': nat, k': nat :: j < i ==> !WindowsMatch(s, j, w1', w2', k')
  }

  // ------------------------------------------------------------ proofs

  lemma WordStartIsNotSpace(s: string, j: nat)
    requires WordAt(s, j)
    ensures !IsSpace(s[j]) && !IsDigit(s[j])
  {
    assert ToLower(s[j..j + |Word|][0]) == 'r';
  }

  /** The first scanner matches exactly where the pattern does, and then
      yields the number its digits spell. */
  lemma UnixAtSpec(s: string, i: nat)
    ensures UnixAt(s, i).Some? <==> exists k: nat, w: nat :: UnixMatch(s, i, k, w)
    ensures forall k: nat, w: nat :: UnixMatch(s, i, k, w) ==> UnixAt(s, i) == Some(DigitsValue(s[i..i + k]))
  {
    if UnixAt(s, i).Some? {
      var k := DigitRun(s, i);
      var w := SpaceRun(s, i + k);
      DigitRunDigits(s, i, k);
      SpaceRunSpaces(s, i + k, w);
      assert UnixMatch(s, i, k, w);
    }
    forall k: nat, w: nat | UnixMatch(s, i, k, w)
      ensures UnixAt(s, i) == Some(DigitsValue(s[i..i + k]))
    {
      UnixMatchIsScanned(s, i, k, w);
    }
  }

  lemma UnixMatchIsScanned(s: string, i: nat, k: nat, w: nat)
    requires UnixMatch(s, i, k, w)
    ensures UnixAt(s, i) == Some(DigitsValue(s[i..i + k]))
  {
    assert s[i + k..i + k + w][0] == s[i + k];
    DigitRunUnique(s, i, k);
    WordStartIsNotSpace(s, i + k + w);
    SpaceRunUnique(s, i + k, w);
  }

  /** The second scanner matches exactly where the pattern does, and then
      yields the number its digit group spells. */
  lemma WindowsAtSpec(s: string, i: nat)
    ensures WindowsAt(s, i).Some? <==> exists w1: nat, w2: nat, k: nat :: WindowsMatch(s, i, w1, w2, k)
    ensures forall w1: nat, w2: nat, k: nat :: WindowsMatch(s, i, w1, w2, k) ==>
      var d := i + |Word| + w1 + 1 + w2;
      WindowsAt(s, i) == Some(DigitsValue(s[d..d + k]))
  {
    if WindowsAt(s, i).Some? {
      WindowsScanIsMatch(s, i);
    }
    forall w1: nat, w2: nat, k: nat | WindowsMatch(s, i, w1, w2, k)
      ensures WindowsAt(s, i) == Some(DigitsValue(s[i + |Word| + w1 + 1 + w2..i + |Word| + w1 + 1 + w2 + k]))
    {
      WindowsMatchIsScanned(s, i, w1, w2, k);
    }
  }

  lemma WindowsScanIsMatch(s: string, i: nat)
    requires WindowsAt(s, i).Some?
    ensures exists w1: nat, w2: nat, k: nat :: WindowsMatch(s, i, w1, w2, k)
  {
    var w1 := SpaceRun(s, i + |Word|);
    var e := i + |Word| + w1;
    var w2 := SpaceRun(s, e + 1);
    var d := e + 1 + w2;
    WindowsScanSteps(s, i, e, d);
    RunsMakeWindowsMatch(s, i, w1, w2, DigitRun(s, d));
  }

  /** The runs the second scanner measures, when they end in `=` and a
      digit, form a match. */
  lemma RunsMakeWindowsMatch(s: string, i: nat, w1: nat, w2: nat, k: nat)
    requires WordAt(s, i) && w1 == SpaceRun(s, i + |Word|)
    requires i + |Word| + w1 < |s| && s[i + |Word| + w1] == '='
    requires w2 == SpaceRun(s, i + |Word| + w1 + 1)
    requires k == DigitRun(s, i + |Word| + w1 + 1 + w2) && k >= 1
    ensures WindowsMatch(s, i, w1, w2, k)
  {
    SpaceRunSpaces(s, i + |Word|, w1);
    SpaceRunSpaces(s, i + |Word| + w1 + 1, w2);
    DigitRunDigits(s, i + |Word| + w1 + 1 + w2, k);
    WindowsMatchIntro(s, i, w1, w2, k);
  }

  lemma WindowsMatchIntro(s: string, i: nat, w1: nat, w2: nat, k: nat)
    requires WordAt(s, i)
    requires i + |Word| + w1 < |s| && s[i + |Word| + w1] == '='
    requires 1 <= k && i + |Word| + w1 + 1 + w2 + k <= |s|
    requires forall j :: i + |Word| <= j < i + |Word| + w1 ==> IsSpace(s[j])
    requires forall j :: i + |Word| + w1 + 1 <= j < i + |Word| + w1 + 1 + w2 ==> IsSpace(s[j])
    requires forall j :: i + |Word| + w1 + 1 + w2 <= j < i + |Word| + w1 + 1 + w2 + k ==> IsDigit(s[j])
    requires i + |Word| + w1 + 1 + w2 + k == |s| || !IsDigit(s[i + |Word| + w1 + 1 + w2 + k])
    ensures WindowsMatch(s, i, w1, w2, k)
  {
  }

  /** What a successful second scan has seen at each stage. */
  lemma WindowsScanSteps(s: string, i: nat, e: nat, d: nat)
    requires WindowsAt(s, i).Some?
    requires e == i + |Word| + SpaceRun(s, i + |Word|)
    requires e < |s| ==> d == e + 1 + SpaceRun(s, e + 1)
    ensures WordAt(s, i) && e < |s| && s[e] == '='
    ensures d <= |s| && DigitRun(s, d) >= 1
  {
    assert WordAt(s, i) && EqualsAt(s, e).Some?;
    assert e < |s| && s[e] == '=' && NumberAt(s, d).Some?;
  }

  lemma WindowsMatchIsScanned(s: string, i: nat, w1: nat, w2: nat, k: nat)
    requires WindowsMatch(s, i, w1, w2, k)
    ensures var d := i + |Word| + w1 + 1 + w2;
      WindowsAt(s, i) == Some(DigitsValue(s[d..d + k]))
  {
    var e := i + |Word| + w1;
    var d := e + 1 + w2;
    assert s[d..d + k][0] == s[d];
    NumberAtRun(s, d, k);
    EqualsAtRun(s, e, w2);
    WindowsAtRun(s, i, w1);
  }

  lemma NumberAtRun(s: string, d: nat, k: nat)
    requires 1 <= k && d + k <= |s| && AllDigits(s[d..d + k])
    requires d + k == |s| || !IsDigit(s[d + k])
    ensures NumberAt(s, d) == Some(DigitsValue(s[d..d + k]))
  {
    DigitRunUnique(s, d, k);
  }

  lemma EqualsAtRun(s: string, e: nat, w2: nat)
    requires e + 1 + w2 < |s| && s[e] == '='
    requires AllSpace(s[e + 1..e + 1 + w2]) && !IsSpace(s[e + 1 + w2])
    ensures EqualsAt(s, e) == NumberAt(s, e + 1 + w2)
  {
    SpaceRunUnique(s, e + 1, w2);
  }

  lemma WindowsAtRun(s: string, i: nat, w1: nat)
    requires WordAt(s, i) && i + |Word| + w1 < |s|
    requires AllSpace(s[i + |Word|..i + |Word| + w1]) && !IsSpace(s[i + |Word| + w1])
    ensures WindowsAt(s, i) == EqualsAt(s, i + |Word| + w1)
  {
    SpaceRunUnique(s, i + |Word|, w1);
  }

  /** Position `j`, from `from` on, is the first where `at` matches, and
      it yields `n` there. */
  ghost predicate FirstHit(s: string, from: nat, at: (string, nat) -> Option<nat>, j: nat, n: nat) {
    from <= j <= |s| && at(s, j) == Some(n) && forall j' :: from <= j' < j ==> at(s, j').None?
  }

  /** The search yields `n` exactly when the scanner yields `n` at some
      position and matches nowhere before it. */
  lemma {:induction false} SearchSpec(s: string, from: nat, at: (string, nat) -> Option<nat>, n: nat)
    ensures Search(s, from, at) == Some(n) <==> exists j :: FirstHit(s, from, at, j, n)
    decreases |s| + 1 - from
  {
    if from <= |s| && at(s, from).None? {
      SearchSpec(s, from + 1, at, n);
      if Search(s, from, at) == Some(n) {
        var j :| FirstHit(s, from + 1, at, j, n);
        assert FirstHit(s, from, at, j, n);
      }
      if exists j :: FirstHit(s, from, at, j, n) {
        var j :| FirstHit(s, from, at, j, n);
        assert FirstHit(s, from + 1, at, j, n);
      }
    } else if from <= |s| {
      if Search(s, from, at) == Some(n) {
        assert FirstHit(s, from, at, from, n);
      }
      if exists j :: FirstHit(s, from, at, j, n) {
        var j :| FirstHit(s, from, at, j, n);
        assert j == from;
      }
    }
  }

  /** The search finds nothing exactly when the scanner matches nowhere. */
  lemma {:induction false} SearchNone(s: string, from: nat, at: (string, nat) -> Option<nat>)
    ensures Search(s, from, at).None? <==> forall j :: from <= j <= |s| ==> at(s, j).None?
    decreases |s| + 1 - from
  {
    if from <= |s| && at(s, from).None? {
      SearchNone(s, from + 1, at);
    }
  }

  lemma UnixFirstCount(s: string, i: nat, k: nat, w: nat)
    requires Contains(s, Word) && FirstUnixMatch(s, i, k, w)
    ensures ParseReceived(s) == DigitsValue(s[i..i + k])
  {
    var n := DigitsValue(s[i..i + k]);
    UnixMatchIsScanned(s, i, k, w);
    forall j | 0 <= j < i
      ensures UnixAt(s, j).None?
    {
      UnixAtSpec(s, j);
    }
    assert FirstHit(s, 0, UnixAt, i, n);
    SearchSpec(s, 0, UnixAt, n);
    assert ParseReceived(s) == Search(s, 0, UnixAt).GetOr(0);
  }

  lemma UnixNoMatch(s: string)
    requires Contains(s, Word) && forall i: nat, k: nat, w: nat :: !UnixMatch(s, i, k, w)
    ensures ParseReceived(s) == 0
  {
    forall j | 0 <= j <= |s|
      ensures UnixAt(s, j).None?
    {
      UnixAtSpec(s, j);
    }
    SearchNone(s, 0, UnixAt);
    assert ParseReceived(s) == Search(s, 0, UnixAt).GetOr(0);
  }

  lemma WindowsFirstCount(s: string, i: nat, w1: nat, w2: nat, k: nat)
    requires !Contains(s, Word) && FirstWindowsMatch(s, i, w1, w2, k)
    ensures var d := i + |Word| + w1 + 1 + w2;
      ParseReceived(s) == DigitsValue(s[d..d + k])
  {
    var d := i + |Word| + w1 + 1 + w2;
    var n := DigitsValue(s[d..d + k]);
    WindowsMatchIsScanned(s, i, w1, w2, k);
    forall j | 0 <= j < i
      ensures WindowsAt(s, j).None?
    {
      WindowsAtSpec(s, j);
    }
    assert FirstHit(s, 0, WindowsAt, i, n);
    SearchSpec(s, 0, WindowsAt, n);
    assert ParseReceived(s) == Search(s, 0, WindowsAt).GetOr(0);
  }

  lemma WindowsNoMatch(s: string)
    requires !Contains(s, Word) && forall i: nat, w1: nat, w2: nat, k: nat :: !WindowsMatch(s, i, w1, w2, k)
    ensures ParseReceived(s) == 0
  {
    forall j | 0 <= j <= |s|
      ensures WindowsAt(s, j).None?
    {
      WindowsAtSpec(s, j);
    }
    SearchNone(s, 0, WindowsAt);
    assert ParseReceived(s) == Search(s, 0, WindowsAt).GetOr(0);
  }

  // ------------------------------------------------------------ examples

  /** The Linux summary line with `d` echo replies received. */
  function LinuxSummary(d: char): string {
    "2 packets transmitted, " + [d] + " received"
  }

  lemma LinuxSummaryStart(s: string, d: char)
    requires s == LinuxSummary(d)
    ensures UnixAt(s, 0) == None
  {
    assert DigitRun(s, 0) == 1 by {
      assert DigitRun(s, 1) == 0;
    }
    assert SpaceRun(s, 1) == 1 by {
      assert SpaceRun(s, 2) == 0;
    }
    var t := s[2..10];
    assert t[0] == 'p';
    assert Lower(t)[0] == 'p';
  }

  lemma LinuxSummaryMiddle(s: string, d: char, j: nat)
    requires s == LinuxSummary(d) && 1 <= j < 23
    ensures UnixAt(s, j) == None
  {
    assert !IsDigit(s[j]);
  }

  lemma LinuxSummaryCountAt(s: string, d: char)
    requires s == LinuxSummary(d) && IsDigit(d)
    ensures UnixAt(s, 23) == Some(DigitValue(d))
  {
    assert s[23] == d && s[24] == ' ';
    assert DigitRun(s, 23) == 1 by {
      assert DigitRun(s, 24) == 0;
    }
    assert SpaceRun(s, 24) == 1 by {
      assert SpaceRun(s, 25) == 0;
    }
    assert s[25..33] == Word;
    assert Lower(Word) == Word;
    assert s[23..24] == [d];
    assert DigitsValue([d]) == DigitValue(d) by {
      assert [d][..0] == [];
    }
  }

  /** On a Linux summary the leading packet count is skipped and the count
      before `received` is read. */
  lemma {:induction false} LinuxSummaryCount(d: char)
    requires IsDigit(d)
    ensures ParseReceived(LinuxSummary(d)) == DigitValue(d)
  {
    var s := LinuxSummary(d);
    assert OccursAt(s, Word, 25);
    LinuxSummaryStart(s, d);
    forall j | 1 <= j < 23
      ensures UnixAt(s, j) == None
    {
      LinuxSummaryMiddle(s, d, j);
    }
    LinuxSummaryCountAt(s, d);
    assert FirstHit(s, 0, UnixAt, 23, DigitValue(d));
    SearchSpec(s, 0, UnixAt, DigitValue(d));
  }

  /** The Windows summary line is read through the second pattern. */
  lemma WindowsSummaryCount()
    ensures ParseReceived("Received = 2") == 2
  {
    var s := "Received = 2";
    assert !Contains(s, Word) by {
      forall i | 0 <= i <= |s| - |Word|
        ensures !OccursAt(s, Word, i)
      {
        assert s[i..i + |Word|][0] == s[i];
      }
    }
    assert Lower(s[0..8]) == Word by {
      assert s[0..8] == "Received";
    }
    assert s[8..9] == " " && s[10..11] == " " && s[11..12] == "2";
    WindowsFirstCount(s, 0, 1, 1, 1);
  }

  /** The BSD summary line, which puts `packets` between the count and
      `received`. */
  function BsdSummary(d: char): string {
    "2 packets transmitted, " + [d] + " packets received"
  }

  lemma BsdSummaryStart(s: string, d: char)
    requires s == BsdSummary(d)
    ensures UnixAt(s, 0) == None
  {
    assert DigitRun(s, 0) == 1 by {
      assert DigitRun(s, 1) == 0;
    }
    assert SpaceRun(s, 1) == 1 by {
      assert SpaceRun(s, 2) == 0;
    }
    var t := s[2..10];
    assert t[0] == 'p';
    assert Lower(t)[0] == 'p';
  }

  lemma BsdSummaryCountAt(s: string, d: char)
    requires s == BsdSummary(d) && IsDigit(d)
    ensures UnixAt(s, 23) == None
  {
    assert s[23] == d && s[24] == ' ' && s[25] == 'p';
    assert DigitRun(s, 23) == 1 by {
      assert DigitRun(s, 24) == 0;
    }
    assert SpaceRun(s, 24) == 1 by {
      assert SpaceRun(s, 25) == 0;
    }
    var t := s[25..33];
    assert t[0] == 'p';
    assert Lower(t)[0] == 'p';
  }

  lemma BsdSummaryRest(s: string, d: char, j: nat)
    requires s == BsdSummary(d) && (1 <= j < 23 || 24 <= j <= |s|)
    ensures UnixAt(s, j) == None
  {
    assert j < |s| ==> !IsDigit(s[j]);
  }

  /** A summary that puts a word between the count and `received`, as
      BSD and BusyBox ping print it, does not match the first pattern and
      reads as zero replies, whatever the count. */
  lemma {:induction false} BsdSummaryIsZero(d: char)
    requires IsDigit(d)
    ensures ParseReceived(BsdSummary(d)) == 0
  {
    var s := BsdSummary(d);
    assert OccursAt(s, Word, 33);
    BsdSummaryStart(s, d);
    BsdSummaryCountAt(s, d);
    forall j | 0 <= j <= |s|
      ensures UnixAt(s, j) == None
    {
      if j != 0 && j != 23 {
        BsdSummaryRest(s, d, j);
      }
    }
    SearchNone(s, 0, UnixAt);
  }
}
