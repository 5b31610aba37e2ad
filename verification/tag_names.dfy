/** The release tag naming scheme: `<stage>-<date>-<serial>-<user>-<slug>`,
    the serial read back from the latest same-day staging tag, the production
    name derived from a staging name, and the yes/no test on a prompt answer. */
module TagNames {
  import opened Options
  import opened Text

  /** The shape of Ruby's `Date#to_s`: `YYYY-MM-DD`. */
  predicate IsIsoDate(d: string) {
    && |d| == 10
    && forall i :: 0 <= i < 10 ==> if i == 4 || i == 7 then d[i] == '-' else IsDigit(d[i])
  }

  /** The regex `staging-[0-9]{4}-[0-9]{2}-[0-9]{2}\-([0-9]*)` matches starting at
      position `i` of `s`; its capture then starts at `i + 19`. */
  predicate SerialMatchAt(s: string, i: nat) {
    && i + 19 <= |s|
    && s[i..i + 8] == "staging-"
    && IsIsoDate(s[i + 8..i + 18])
    && s[i + 18] == '-'
  }

  /** `k` is the first position at or after `i` where the serial regex matches. */
  ghost predicate LeftmostSerialMatch(s: string, i: nat, k: nat) {
    i <= k && SerialMatchAt(s, k) && forall m :: i <= m < k ==> !SerialMatchAt(s, m)
  }

  /** Leftmost-match search for the serial regex from position `i`, yielding `$1`. */
  function SerialCaptureFrom(s: string, i: nat): (r: Option<string>)
    requires i <= |s|
    ensures r.None? ==> forall k :: i <= k <= |s| ==> !SerialMatchAt(s, k)
    ensures r.Some? ==> exists k: nat :: LeftmostSerialMatch(s, i, k) && r.value == LeadingDigits(s[k + 19..])
    decreases |s| - i
  {
    if i + 19 > |s| then None
    else if SerialMatchAt(s, i) then
      assert LeftmostSerialMatch(s, i, i);
      Some(LeadingDigits(s[i + 19..]))
    else
      var r := SerialCaptureFrom(s, i + 1);
      assert r.Some? ==> exists k: nat :: LeftmostSerialMatch(s, i, k) && r.value == LeadingDigits(s[k + 19..]) by {
        if r.Some? {
          var k: nat :| LeftmostSerialMatch(s, i + 1, k) && r.value == LeadingDigits(s[k + 19..]);
          assert LeftmostSerialMatch(s, i, k);
        }
      }
      r
  }

  /** `name =~ /staging-...-([0-9]*)/` then `$1`: the digits after the leftmost
      `staging-YYYY-MM-DD-`, or nothing when the regex does not match. */
  function SerialCapture(name: string): (r: Option<string>)
    ensures r.None? <==> forall k :: 0 <= k <= |name| ==> !SerialMatchAt(name, k)
    ensures r.Some? ==> exists k: nat :: LeftmostSerialMatch(name, 0, k) && r.value == LeadingDigits(name[k + 19..])
  {
    SerialCaptureFrom(name, 0)
  }

  /** The serial a tag name carries, as `$1.to_i` reads it: an empty capture reads as 0. */
  function SerialOf(name: string): (r: Option<nat>)
    ensures r.None? <==> forall k :: 0 <= k <= |name| ==> !SerialMatchAt(name, k)
  {
    match SerialCapture(name)
    case None => None
    case Some(d) => Some(DecimalValue(d))
  }

  /** A serial read from a name is `to_i` of the digit run after the leftmost match of the regex. */
  lemma SerialOfLeftmost(name: string)
    requires SerialOf(name).Some?
    ensures exists k: nat :: LeftmostSerialMatch(name, 0, k) && SerialOf(name).value == DecimalValue(LeadingDigits(name[k + 19..]))
  {
  }

  /** The `staging-<date>-*` glob that selects staging tags of one day. */
  function SameDayPrefix(date: string): string {
    "staging-" + date + "-"
  }

  /** The part of a release tag name after the stage: `<date>-<serial>-<user>-<slug>`. */
  function Suffix(date: string, serial: nat, user: string, slug: string): string {
    date + "-" + DecimalString(serial) + "-" + user + "-" + slug
  }

  /** Name of a release tag: `<stage>-<date>-<serial>-<user>-<slug>`. */
  function FormatName(stage: string, date: string, serial: nat, user: string, slug: string): string {
    stage + "-" + Suffix(date, serial, user, slug)
  }

  /** A release name begins with `<stage>-<date>-` and ends with `-<user>-<slug>`. */
  lemma FormatNameShape(stage: string, date: string, serial: nat, user: string, slug: string)
    ensures var r := FormatName(stage, date, serial, user, slug);
      && StartsWith(r, stage + "-" + date + "-")
      && |r| >= |user| + |slug| + 2 && r[|r| - |user| - |slug| - 2..] == "-" + user + "-" + slug
  {
    var digits := DecimalString(serial);
    var r := FormatName(stage, date, serial, user, slug);
    assert r == (stage + "-" + date + "-") + (digits + "-" + user + "-" + slug);
    assert r == (stage + "-" + date + "-" + digits) + ("-" + user + "-" + slug);
  }

  /** A staging name starting with `staging-<date>-` is matched by the serial regex at its
      start, so `$1` is the digit run right after that prefix. */
  lemma SerialCaptureOfDatedName(date: string, rest: string)
    requires IsIsoDate(date)
    ensures SerialCapture(SameDayPrefix(date) + rest) == Some(LeadingDigits(rest))
  {
    var s := SameDayPrefix(date) + rest;
    assert s[0..8] == "staging-";
    assert s[8..18] == date;
    assert s[19..] == rest;
    assert SerialMatchAt(s, 0);
  }

  /** Round trip of the codec: the serial formatted into a staging name on a
      given date is the serial read back from it. */
  lemma {:induction false} SerialRoundTrip(date: string, serial: nat, user: string, slug: string)
    requires IsIsoDate(date)
    ensures StartsWith(FormatName("staging", date, serial, user, slug), SameDayPrefix(date))
    ensures SerialOf(FormatName("staging", date, serial, user, slug)) == Some(serial)
  {
    var digits := DecimalString(serial);
    var rest := digits + "-" + (user + "-" + slug);
    var name := FormatName("staging", date, serial, user, slug);
    assert Suffix(date, serial, user, slug) == date + "-" + rest;
    assert name == SameDayPrefix(date) + rest;
    assert name[..|SameDayPrefix(date)|] == SameDayPrefix(date);
    SerialCaptureOfDatedName(date, rest);
    LeadingDigitsStopsAtDash(digits, user + "-" + slug);
    DecimalRoundTrip(serial);
  }

  /** A name of the `staging` stage and the name it is promoted to differ only in the stage:
      date, serial, user and slug carry over verbatim. */
  lemma PromotedName(date: string, serial: nat, user: string, slug: string)
    requires NoNewline(date) && NoNewline(user) && NoNewline(slug)
    ensures ProductionName(FormatName("staging", date, serial, user, slug)) == FormatName("production", date, serial, user, slug)
  {
    var tail := Suffix(date, serial, user, slug);
    SuffixSingleLine(date, serial, user, slug);
    var name := "staging-" + tail;
    assert FormatName("staging", date, serial, user, slug) == name;
    NoNewlineConcat("staging-", tail);
    assert name[..8] == "staging-";
    assert name[8..] == tail;
    ProductionNameOfSingleLine(name);
  }

  lemma SuffixSingleLine(date: string, serial: nat, user: string, slug: string)
    requires NoNewline(date) && NoNewline(user) && NoNewline(slug)
    ensures NoNewline(Suffix(date, serial, user, slug))
  {
    var digits := DecimalString(serial);
    assert NoNewline(digits);
    var t1 := date + "-";
    NoNewlineConcat(date, "-");
    var t2 := t1 + digits;
    NoNewlineConcat(t1, digits);
    var t3 := t2 + "-";
    NoNewlineConcat(t2, "-");
    var t4 := t3 + user;
    NoNewlineConcat(t3, user);
    var t5 := t4 + "-";
    NoNewlineConcat(t4, "-");
    NoNewlineConcat(t5, slug);
  }

  /** `^staging-` matches at position `k`: a line starts there with `staging-`. */
  predicate StagingLineAt(s: string, k: nat) {
    k + 8 <= |s| && LineStart(s, k) && s[k..k + 8] == "staging-"
  }

  /** `k` is the first position at or after `i` where `^staging-` matches. */
  ghost predicate LeftmostStagingLine(s: string, i: nat, k: nat) {
    i <= k && StagingLineAt(s, k) && forall m :: i <= m < k ==> !StagingLineAt(s, m)
  }

  /** `v` is the `$1` of `^staging-(.*)$` matched leftmost at `k`, searching from `i`. */
  ghost predicate StagingCapture(s: string, i: nat, k: nat, v: string) {
    LeftmostStagingLine(s, i, k) && v == s[k + 8..LineEnd(s, k + 8)]
  }

  /** Leftmost match of `^staging-(.*)$` from position `i`: `^` at a line start,
      `.*` greedily to the end of that line; yields `$1`. */
  function ProductionSuffixFrom(s: string, i: nat): (r: Option<string>)
    requires i <= |s|
    ensures r.None? ==> forall k :: i <= k <= |s| ==> !StagingLineAt(s, k)
    ensures r.Some? ==> exists k: nat :: StagingCapture(s, i, k, r.value)
    decreases |s| - i
  {
    if i + 8 > |s| then None
    else if StagingLineAt(s, i) then
      assert StagingCapture(s, i, i, s[i + 8..LineEnd(s, i + 8)]);
      Some(s[i + 8..LineEnd(s, i + 8)])
    else
      var r := ProductionSuffixFrom(s, i + 1);
      assert r.Some? ==> exists k: nat :: StagingCapture(s, i, k, r.value) by {
        if r.Some? {
          var k: nat :| StagingCapture(s, i + 1, k, r.value);
          assert StagingCapture(s, i, k, r.value);
        }
      }
      r
  }

  /** `"production-#{$1}"` after `candidate =~ /^staging-(.*)$/`; a failed match
      leaves `$1` nil, which interpolates as the empty string. */
  function ProductionName(candidate: string): (r: string)
    ensures StartsWith(r, "production-")
  {
    var suffix := match ProductionSuffixFrom(candidate, 0)
      case None => ""
      case Some(x) => x;
    assert ("production-" + suffix)[..11] == "production-";
    "production-" + suffix
  }

  /** On a single-line name, the production name keeps the remainder after a leading
      `staging-` verbatim, and is the bare `production-` when the name does not start so. */
  lemma ProductionNameOfSingleLine(candidate: string)
    requires NoNewline(candidate)
    ensures StartsWith(candidate, "staging-") ==> ProductionName(candidate) == "production-" + candidate[8..]
    ensures !StartsWith(candidate, "staging-") ==> ProductionName(candidate) == "production-"
  {
    if StartsWith(candidate, "staging-") {
      assert StagingLineAt(candidate, 0);
      assert LineEnd(candidate, 8) == |candidate|;
    } else {
      var r := ProductionSuffixFrom(candidate, 0);
      if r.Some? {
        ProductionSuffixFromLineStart(candidate, 0);
      }
    }
  }

  /** On a single-line string the search can only succeed at position 0. */
  lemma {:induction false} ProductionSuffixFromLineStart(s: string, i: nat)
    requires i <= |s| && NoNewline(s)
    requires ProductionSuffixFrom(s, i).Some?
    ensures i == 0 && s[..8] == "staging-"
    decreases |s| - i
  {
    if !StagingLineAt(s, i) {
      ProductionSuffixFromLineStart(s, i + 1);
    }
  }

  /** Ruby's `/^[Yy]$/` on the normalised answer: some line is exactly `y` or `Y`. */
  predicate IsAffirmative(answer: string): (b: bool)
    ensures answer == "y" || answer == "Y" ==> b
    ensures answer == "" ==> !b
    ensures b ==> 'y' in answer || 'Y' in answer
  {
    assert answer == "y" || answer == "Y" ==> AffirmativeAt(answer, 0);
    exists i :: 0 <= i < |answer| && AffirmativeAt(answer, i)
  }

  predicate AffirmativeAt(s: string, i: nat) {
    && i < |s|
    && (s[i] == 'y' || s[i] == 'Y')
    && LineStart(s, i)
    && (i + 1 == |s| || s[i + 1] == '\n')
  }

  /** On a single-line answer the confirmation test accepts exactly `y` and `Y`. */
  lemma AffirmativeSingleLine(answer: string)
    requires NoNewline(answer)
    ensures IsAffirmative(answer) <==> answer == "y" || answer == "Y"
  {
    if answer == "y" || answer == "Y" {
      assert AffirmativeAt(answer, 0);
    }
  }
}
