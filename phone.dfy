/**
  `get_phone_number`: the first match of `(?:0|\+?44)(?:\d\s?){9,10}` in a
  subject line, stripped of surrounding whitespace, or a fixed sentence.

  The pattern is given twice: `Matches` says declaratively which strings the
  pattern matches as a whole, and `MatchAt` is the matcher, which at one
  position takes the prefix and then as many digit groups as it can (at most
  ten), each digit with the whitespace character after it when there is one.
  For this pattern that is exactly what a backtracking engine returns: the
  prefix alternatives are told apart by their first character, and a group
  that leaves its whitespace behind cannot be followed by another group, so
  the first path the engine tries that reaches nine groups is the greedy one.
  `MatchAtLongest` proves the matcher returns the longest match at a position,
  and `FirstMatch` scans positions from the left as `re.findall` does.
 */
module Phone {
  import opened Wrappers
  import opened Text

  const NotFound := "Phone number not found."
  const MinGroups: nat := 9
  const MaxGroups: nat := 10

  /** `t` is exactly `n` groups `\d\s?`. */
  predicate IsGroups(t: string, n: nat)
    decreases n
  {
    if n == 0 then t == []
    else
      && |t| >= 1 && IsDigit(t[0])
      && (IsGroups(t[1..], n - 1) || (|t| >= 2 && IsSpace(t[1]) && IsGroups(t[2..], n - 1)))
  }

  /** `t` is `(?:\d\s?){9,10}`. */
  predicate IsDigitRun(t: string) {
    exists n :: MinGroups <= n <= MaxGroups && IsGroups(t, n)
  }

  /** `t` is matched as a whole by `(?:0|\+?44)(?:\d\s?){9,10}`. */
  predicate Matches(t: string) {
    && |t| >= 1
    && var k := PrefixLength(t[0]);
    && k <= |t| && IsPrefix(t[..k]) && IsDigitRun(t[k..])
  }

  /** The length of the prefix alternative that starts with `c`: each
      alternative has its own first character. */
  function PrefixLength(c: char): nat {
    if c == '0' then 1 else if c == '4' then 2 else 3
  }

  /** What `get_phone_number` can return besides `NotFound`: a match with no
      whitespace at its end. */
  predicate IsPhoneNumber(r: string) {
    Matches(r) && !IsSpace(r[|r| - 1])
  }

  /** Can a match start with `c`? */
  predicate IsStartChar(c: char) {
    c == '0' || c == '4' || c == '+'
  }

  /** The prefix alternatives of the pattern. */
  predicate IsPrefix(p: string) {
    p == "0" || p == "44" || p == "+44"
  }

  /** The end of the prefix `(?:0|\+?44)` at position `i`, if it matches there. */
  function PrefixEnd(s: string, i: nat): (r: Option<nat>)
    requires i <= |s|
    ensures r.Some? ==> i < r.value <= |s| && IsPrefix(s[i..r.value])
    ensures r.Some? ==> r.value == i + PrefixLength(s[i]) && IsStartChar(s[i])
  {
    if i < |s| && s[i] == '0' then
      assert s[i..i + 1] == "0";
      Some(i + 1)
    else if i + 3 <= |s| && s[i] == '+' && s[i + 1] == '4' && s[i + 2] == '4' then
      assert s[i..i + 3] == "+44";
      Some(i + 3)
    else if i + 2 <= |s| && s[i] == '4' && s[i + 1] == '4' then
      assert s[i..i + 2] == "44";
      Some(i + 2)
    else None
  }

  /** An alternative of the prefix that starts at `i` is found there. */
  lemma PrefixEndComplete(s: string, i: nat, k: nat)
    requires i + k <= |s| && IsPrefix(s[i..i + k])
    ensures PrefixEnd(s, i) == Some(i + k)
  {
    var p := s[i..i + k];
    assert p[0] == s[i];
    if |p| >= 2 {
      assert p[1] == s[i + 1];
    }
    if |p| == 3 {
      assert p[2] == s[i + 2];
    }
  }

  /** Where the group `\d\s?` that starts with the digit at `j` ends. */
  function GroupEnd(s: string, j: nat): nat
  {
    if j + 1 < |s| && IsSpace(s[j + 1]) then j + 2 else j + 1
  }

  /** Greedy repetition of `\d\s?` from `j`, at most `limit` times: how many
      groups were taken and where they end. */
  function Groups(s: string, j: nat, limit: nat): (r: (nat, nat))
    requires j <= |s|
    ensures r.0 <= limit && j <= r.1 <= |s|
    ensures r.0 == 0 <==> r.1 == j
    decreases |s| - j
  {
    if limit == 0 || j == |s| || !IsDigit(s[j]) then (0, j)
    else
      var (n, e) := Groups(s, GroupEnd(s, j), limit - 1);
      (n + 1, e)
  }

  /** What the greedy repetition takes is that many groups `\d\s?`. */
  lemma {:induction false} GroupsSound(s: string, j: nat, limit: nat)
    requires j <= |s|
    ensures IsGroups(s[j..Groups(s, j, limit).1], Groups(s, j, limit).0)
    decreases |s| - j
  {
    if !(limit == 0 || j == |s| || !IsDigit(s[j])) {
      var k := GroupEnd(s, j);
      var (n, e) := Groups(s, k, limit - 1);
      assert Groups(s, j, limit) == (n + 1, e);
      GroupsSound(s, k, limit - 1);
      assert s[j..e][1..] == s[j + 1..e];
      assert k == j + 2 ==> s[j..e][2..] == s[j + 2..e];
    }
  }

  /** The first group of a reading of `s[j..e]` as `m` groups. */
  lemma GroupsHead(s: string, j: nat, e: nat, m: nat)
    requires j <= e <= |s| && m >= 1 && IsGroups(s[j..e], m)
    ensures j < e && IsDigit(s[j])
    ensures IsGroups(s[j + 1..e], m - 1)
         || (j + 2 <= e && IsSpace(s[j + 1]) && IsGroups(s[j + 2..e], m - 1))
  {
    var t := s[j..e];
    assert t[0] == s[j];
    assert t[1..] == s[j + 1..e];
    if |t| >= 2 {
      assert t[1] == s[j + 1];
      assert t[2..] == s[j + 2..e];
    }
  }

  /** The first group of a reading of `s[j..e]` as `m` groups ends where the
      greedy repetition ends it, unless it is the only group and leaves its
      whitespace behind. */
  lemma GroupsTail(s: string, j: nat, e: nat, m: nat) returns (k: nat)
    requires j <= e <= |s| && m >= 1 && IsGroups(s[j..e], m)
    ensures j < |s| && IsDigit(s[j]) && k == GroupEnd(s, j)
    ensures (k <= e && IsGroups(s[k..e], m - 1)) || (m == 1 && e <= k)
  {
    GroupsHead(s, j, e, m);
    k := GroupEnd(s, j);
    if IsGroups(s[j + 1..e], m - 1) {
      if m - 1 > 0 {
        GroupsHead(s, j + 1, e, m - 1);
        DigitIsNotSpace(s[j + 1]);
      } else {
        assert s[j + 1..e] == [];
      }
    }
  }

  /** No way of reading `s[j..e]` as `m <= limit` groups gets further than
      the greedy repetition does. */
  lemma {:induction false} GroupsLongest(s: string, j: nat, limit: nat, m: nat, e: nat)
    requires j <= e <= |s| && m <= limit && IsGroups(s[j..e], m)
    ensures m <= Groups(s, j, limit).0 && e <= Groups(s, j, limit).1
    decreases limit
  {
    if m > 0 {
      var k := GroupsTail(s, j, e, m);
      var rest := Groups(s, k, limit - 1);
      assert Groups(s, j, limit) == (rest.0 + 1, rest.1);
      if k <= e && IsGroups(s[k..e], m - 1) {
        GroupsLongest(s, k, limit - 1, m - 1, e);
      }
    }
  }

  /** The end of the match of the whole pattern at position `i`, if any. */
  function MatchAt(s: string, i: nat): (r: Option<nat>)
    requires i <= |s|
    ensures r.Some? ==> i < r.value <= |s|
  {
    match PrefixEnd(s, i)
    case None => None
    case Some(p) =>
      var (n, e) := Groups(s, p, MaxGroups);
      if n >= MinGroups then Some(e) else None
  }

  /** What the matcher finds at a position is a whole match of the pattern. */
  lemma MatchAtSound(s: string, i: nat)
    requires i <= |s| && MatchAt(s, i).Some?
    ensures Matches(s[i..MatchAt(s, i).value])
  {
    var p := PrefixEnd(s, i).value;
    var (n, e) := Groups(s, p, MaxGroups);
    GroupsSound(s, p, MaxGroups);
    var t := s[i..e];
    assert t[0] == s[i];
    assert t[..p - i] == s[i..p] && t[p - i..] == s[p..e];
  }

  /** The matcher finds a match at `i` whenever there is one, and it is the longest. */
  lemma {:induction false} MatchAtLongest(s: string, i: nat, e: nat)
    requires i <= e <= |s| && Matches(s[i..e])
    ensures MatchAt(s, i).Some? && e <= MatchAt(s, i).value
  {
    var p := MatchPrefix(s, i, e);
    var n :| MinGroups <= n <= MaxGroups && IsGroups(s[p..e], n);
    GroupsLongest(s, p, MaxGroups, n, e);
  }

  /** A match at `i` starts with the prefix `PrefixEnd` recognises, and the
      rest of it is a run of digit groups. */
  lemma MatchPrefix(s: string, i: nat, e: nat) returns (p: nat)
    requires i <= e <= |s| && Matches(s[i..e])
    ensures PrefixEnd(s, i) == Some(p) && p <= e && IsDigitRun(s[p..e])
  {
    var t := s[i..e];
    var k := PrefixLength(t[0]);
    assert t[0] == s[i];
    assert t[..k] == s[i..i + k] && t[k..] == s[i + k..e];
    if t[0] == '4' {
      assert t[..k] == "44";
      assert s[i + 1] == t[..k][1];
    } else if t[0] != '0' {
      assert t[..k] == "+44";
      assert s[i + 1] == t[..k][1] && s[i + 2] == t[..k][2];
    }
    p := i + k;
  }

  /** `re.findall(...)[0]`: the leftmost position from `from` on where the
      pattern matches, with the end of that match. */
  function FirstMatch(s: string, from: nat): (r: Option<(nat, nat)>)
    requires from <= |s|
    ensures r.Some? ==> from <= r.value.0 <= |s| && MatchAt(s, r.value.0) == Some(r.value.1)
    decreases |s| - from
  {
    match MatchAt(s, from)
    case Some(e) => Some((from, e))
    case None => if from == |s| then None else FirstMatch(s, from + 1)
  }

  /** The scan stops at the first position where the matcher succeeds ... */
  lemma {:induction false} FirstMatchLeftmost(s: string, from: nat)
    requires from <= |s|
    requires FirstMatch(s, from).Some?
    ensures forall k :: from <= k < FirstMatch(s, from).value.0 ==> MatchAt(s, k).None?
    decreases |s| - from
  {
    if MatchAt(s, from).None? {
      FirstMatchLeftmost(s, from + 1);
    }
  }

  /** ... and finds nothing only when the matcher succeeds nowhere. */
  lemma {:induction false} FirstMatchNone(s: string, from: nat)
    requires from <= |s|
    requires FirstMatch(s, from).None?
    ensures forall k :: from <= k <= |s| ==> MatchAt(s, k).None?
    decreases |s| - from
  {
    assert MatchAt(s, from).None?;
    if from < |s| {
      assert FirstMatch(s, from + 1).None?;
      FirstMatchNone(s, from + 1);
    }
  }

  /** `get_phone_number(subject)`. */
  function GetPhoneNumber(subject: string): (r: string)
  {
    match FirstMatch(subject, 0)
    case None => NotFound
    case Some((i, e)) => Strip(subject[i..e])
  }

  /** A match whose last group ends in whitespace loses that one character. */
  lemma {:induction false} GroupsEnd(t: string, n: nat)
    requires n >= 1 && IsGroups(t, n)
    ensures |t| >= 1
    ensures IsDigit(t[|t| - 1]) || (|t| >= 2 && IsSpace(t[|t| - 1]) && IsDigit(t[|t| - 2]) && IsGroups(t[..|t| - 1], n))
    decreases n
  {
    if n > 1 {
      if IsGroups(t[1..], n - 1) {
        GroupsEnd(t[1..], n - 1);
        if !IsDigit(t[|t| - 1]) {
          assert t[..|t| - 1][1..] == t[1..][..|t[1..]| - 1];
        }
      } else {
        GroupsEnd(t[2..], n - 1);
        if !IsDigit(t[|t| - 1]) {
          assert t[..|t| - 1][2..] == t[2..][..|t[2..]| - 1];
        }
      }
    } else if !IsDigit(t[|t| - 1]) {
      assert t[..|t| - 1][1..] == [];
    }
  }

  /** A match starts with the first character of one of the prefix alternatives. */
  lemma MatchStartsWithStartChar(t: string)
    requires Matches(t)
    ensures IsStartChar(t[0])
  {
    assert t[0] == t[..PrefixLength(t[0])][0];
  }

  /** Stripping a match removes at most the whitespace after its last digit
      and leaves a match. */
  lemma {:induction false} StripMatch(t: string)
    requires Matches(t)
    ensures Strip(t) == t || Strip(t) == t[..|t| - 1]
    ensures IsPhoneNumber(Strip(t)) && IsStartChar(Strip(t)[0])
  {
    MatchStartsWithStartChar(t);
    if IsSpace(t[|t| - 1]) {
      var u := DropTrailingSpace(t);
      DigitIsNotSpace(u[|u| - 1]);
      StripOneTrailing(t, u);
    } else {
      StripUnpadded(t);
    }
  }

  /** A match that ends in whitespace is still a match without it, and then
      ends in a digit. */
  lemma {:induction false} DropTrailingSpace(t: string) returns (u: string)
    requires Matches(t) && IsSpace(t[|t| - 1])
    ensures u == t[..|t| - 1] && |u| >= 1 && u[0] == t[0]
    ensures Matches(u) && IsDigit(u[|u| - 1])
  {
    var p := PrefixLength(t[0]);
    var run := t[p..];
    var n :| MinGroups <= n <= MaxGroups && IsGroups(run, n);
    GroupsEnd(run, n);
    assert t[|t| - 1] == run[|run| - 1];
    u := t[..|t| - 1];
    assert u[|u| - 1] == run[|run| - 2];
    assert u[0] == t[0] && u[..p] == t[..p];
    assert u[p..] == run[..|run| - 1];
  }

  /** `get_phone_number` answers `NotFound` exactly when no substring of the
      subject matches the pattern. */
  lemma {:induction false} NotFoundIffNoMatch(subject: string)
    ensures GetPhoneNumber(subject) == NotFound
        <==> forall i, e :: 0 <= i <= e <= |subject| ==> !Matches(subject[i..e])
  {
    match FirstMatch(subject, 0)
    case None =>
      FirstMatchNone(subject, 0);
      forall i, e | 0 <= i <= e <= |subject|
        ensures !Matches(subject[i..e])
      {
        if Matches(subject[i..e]) {
          MatchAtLongest(subject, i, e);
        }
      }
    case Some((i, e)) =>
      MatchAtSound(subject, i);
      StripMatch(subject[i..e]);
      assert NotFound[0] == 'P';
  }

  /** Otherwise it answers a phone number that occurs in the subject. */
  lemma {:induction false} FoundIsPhoneNumber(subject: string)
    requires GetPhoneNumber(subject) != NotFound
    ensures IsPhoneNumber(GetPhoneNumber(subject))
    ensures exists a, b :: 0 <= a <= b <= |subject| && subject[a..b] == GetPhoneNumber(subject)
  {
    var m := FirstMatch(subject, 0);
    var i, e := m.value.0, m.value.1;
    var t := subject[i..e];
    var r := GetPhoneNumber(subject);
    assert r == Strip(t);
    MatchAtSound(subject, i);
    StripAndOccur(subject, i, e);
  }

  /** The stripped match is itself a phone number found in the subject. */
  lemma StripAndOccur(subject: string, i: nat, e: nat)
    requires i <= e <= |subject| && Matches(subject[i..e])
    ensures IsPhoneNumber(Strip(subject[i..e]))
    ensures exists a, b :: 0 <= a <= b <= |subject| && subject[a..b] == Strip(subject[i..e])
  {
    StripMatch(subject[i..e]);
    StripOccurs(subject, i, e, Strip(subject[i..e]));
  }

  /** `s[i..e]`, or it without its last character, occurs in `s`. */
  lemma StripOccurs(s: string, i: nat, e: nat, r: string)
    requires i < e <= |s|
    requires r == s[i..e] || r == s[i..e][..e - i - 1]
    ensures exists a, b :: 0 <= a <= b <= |s| && s[a..b] == r
  {
    if r == s[i..e] {
      assert s[i..e] == r;
    } else {
      assert s[i..e - 1] == r;
    }
  }

  /** It answers the leftmost match, taken as long as possible, then stripped:
      ten digit groups are preferred to nine. */
  lemma {:induction false} LeftmostLongest(subject: string, i: nat, e: nat)
    requires i <= e <= |subject| && Matches(subject[i..e])
    requires forall j, f :: 0 <= j < i && j <= f <= |subject| ==> !Matches(subject[j..f])
    requires forall f :: e < f <= |subject| ==> !Matches(subject[i..f])
    ensures GetPhoneNumber(subject) == Strip(subject[i..e])
  {
    MatchAtLongest(subject, i, e);
    ScanReaches(subject, i);
    var (i', e') := FirstMatch(subject, 0).value;
    MatchAtSound(subject, i');
    assert Matches(subject[i'..e']);
    assert i' == i;
    assert e' == e;
  }

  /** The scan from the start stops at or before any position where the matcher succeeds. */
  lemma ScanReaches(s: string, i: nat)
    requires i <= |s| && MatchAt(s, i).Some?
    ensures FirstMatch(s, 0).Some? && FirstMatch(s, 0).value.0 <= i
  {
    if FirstMatch(s, 0).None? {
      FirstMatchNone(s, 0);
    } else {
      FirstMatchLeftmost(s, 0);
    }
  }

  /** Positions whose character cannot start a match are passed over. */
  lemma {:induction false} SkipNonStart(s: string, from: nat, to: nat)
    requires from <= to <= |s|
    requires forall k :: from <= k < to ==> !IsStartChar(s[k])
    ensures FirstMatch(s, from) == FirstMatch(s, to)
    decreases |s| - from
  {
    if from < to {
      assert MatchAt(s, from).None?;
      SkipNonStart(s, from + 1, to);
    }
  }

  /** Greedy repetition over a run of at least `limit` digits takes `limit`
      groups, the last one with the whitespace character after the run. */
  lemma {:induction false} GroupsOverDigits(s: string, j: nat, limit: nat)
    requires 1 <= limit && j + limit <= |s|
    requires forall k :: j <= k < j + limit ==> IsDigit(s[k])
    ensures Groups(s, j, limit).0 == limit
    ensures Groups(s, j, limit).1 == if j + limit < |s| && IsSpace(s[j + limit]) then j + limit + 1 else j + limit
    decreases limit
  {
    if limit > 1 {
      DigitIsNotSpace(s[j + 1]);
      GroupsOverDigits(s, j + 1, limit - 1);
    }
  }

  /** A `0` and ten digits after text that holds no `0`, `4` or `+`, and
      before whitespace, is what is answered: the greedy tenth group takes
      the whitespace, and stripping gives it back. */
  lemma {:induction false} ZeroAndTenDigitsFound(lead: string, number: string, tail: string)
    requires forall k :: 0 <= k < |lead| ==> !IsStartChar(lead[k])
    requires |number| == 11 && number[0] == '0'
    requires forall k :: 1 <= k < 11 ==> IsDigit(number[k])
    requires |tail| >= 1 && IsSpace(tail[0])
    ensures GetPhoneNumber(lead + number + tail) == number
  {
    var subject := lead + number + tail;
    var n := |lead|;
    LeadSkipped(lead, number + tail);
    assert lead + (number + tail) == subject;
    NumberMatchAt(lead, number, tail);
    assert FirstMatch(subject, 0) == Some((n, n + 12));
    PartsOf(lead, number, tail);
    NumberAnswered(subject, n, number);
  }

  /** Where the middle part and the first character after it sit in a concatenation. */
  lemma PartsOf(lead: string, number: string, tail: string)
    requires |tail| >= 1
    ensures (lead + number + tail)[|lead|..|lead| + |number|] == number
    ensures (lead + number + tail)[|lead| + |number|] == tail[0]
  {
    var s := lead + number + tail;
    assert s == lead + (number + tail);
  }

  /** A match of a `0`, ten digits and whitespace is answered without the whitespace. */
  lemma NumberAnswered(s: string, n: nat, number: string)
    requires n + 12 <= |s| && MatchAt(s, n) == Some(n + 12)
    requires s[n..n + 11] == number && IsSpace(s[n + 11])
    ensures Strip(s[n..n + 12]) == number
  {
    MatchAtSound(s, n);
    var t := s[n..n + 12];
    assert t[..11] == number;
    StripTrailingSpace(t);
  }

  /** A lead without start characters is passed over by the scan. */
  lemma LeadSkipped(lead: string, rest: string)
    requires forall k :: 0 <= k < |lead| ==> !IsStartChar(lead[k])
    ensures FirstMatch(lead + rest, 0) == FirstMatch(lead + rest, |lead|)
  {
    var s := lead + rest;
    assert forall k :: 0 <= k < |lead| ==> s[k] == lead[k];
    SkipNonStart(s, 0, |lead|);
  }

  /** A `0` and ten digits before whitespace match as those twelve characters. */
  lemma NumberMatchAt(lead: string, number: string, tail: string)
    requires |number| == 11 && number[0] == '0'
    requires forall k :: 1 <= k < 11 ==> IsDigit(number[k])
    requires |tail| >= 1 && IsSpace(tail[0])
    ensures MatchAt(lead + number + tail, |lead|) == Some(|lead| + 12)
  {
    var s := lead + number + tail;
    var n := |lead|;
    assert s[n + 11] == tail[0];
    forall k | n <= k < n + 11
      ensures s[k] == number[k - n]
    {
    }
    ZeroAndTenMatchAt(s, n);
  }

  /** At a `0` followed by ten digits and whitespace, the match is those
      twelve characters. */
  lemma ZeroAndTenMatchAt(s: string, n: nat)
    requires n + 12 <= |s| && s[n] == '0' && IsSpace(s[n + 11])
    requires forall k :: n + 1 <= k < n + 11 ==> IsDigit(s[k])
    ensures MatchAt(s, n) == Some(n + 12)
  {
    assert PrefixEnd(s, n) == Some(n + 1);
    GroupsOverDigits(s, n + 1, MaxGroups);
  }

  /** A match that ends in whitespace loses exactly that character to `strip`. */
  lemma StripTrailingSpace(t: string)
    requires Matches(t) && IsSpace(t[|t| - 1])
    ensures Strip(t) == t[..|t| - 1]
  {
    StripMatch(t);
  }

  /** The subject line of the source's passing test. */
  lemma TestedSubjectWithNumber(subject: string)
    requires subject == "Voice Message Attached from 07712345678 - name unavailable"
    ensures GetPhoneNumber(subject) == "07712345678"
  {
    var lead, number, tail := "Voice Message Attached from ", "07712345678", " - name unavailable";
    assert subject == lead + number + tail;
    NoStartCharIn(lead);
    ZeroAndTenDigitsFound(lead, number, tail);
  }

  /** The number of digits in `t`. */
  function CountDigits(t: string): (n: nat)
    ensures n <= |t|
  {
    if t == [] then 0 else (if IsDigit(t[0]) then 1 else 0) + CountDigits(t[1..])
  }

  lemma {:induction false} CountDigitsConcat(a: string, b: string)
    ensures CountDigits(a + b) == CountDigits(a) + CountDigits(b)
    decreases |a|
  {
    if a != [] {
      assert (a + b)[1..] == a[1..] + b;
      CountDigitsConcat(a[1..], b);
    } else {
      assert a + b == b;
    }
  }

  /** `n` groups hold exactly `n` digits. */
  lemma {:induction false} GroupsHoldDigits(t: string, n: nat)
    requires IsGroups(t, n)
    ensures CountDigits(t) == n
    decreases n
  {
    if n > 0 {
      if IsGroups(t[1..], n - 1) {
        GroupsHoldDigits(t[1..], n - 1);
      } else {
        DigitIsNotSpace(t[1]);
        assert t[1..][1..] == t[2..];
        GroupsHoldDigits(t[2..], n - 1);
      }
    }
  }

  /** Every match holds at least ten digits: nine groups after `0`, or after `44`. */
  lemma MatchHoldsTenDigits(t: string)
    requires Matches(t)
    ensures CountDigits(t) >= 10
  {
    var k := PrefixLength(t[0]);
    var n :| MinGroups <= n <= MaxGroups && IsGroups(t[k..], n);
    GroupsHoldDigits(t[k..], n);
    assert t == t[..k] + t[k..];
    CountDigitsConcat(t[..k], t[k..]);
    assert CountDigits("0") == 1 && CountDigits("44") == 2 && CountDigits("+44") == 2;
  }

  /** A subject with fewer than ten digits holds no phone number. */
  lemma {:induction false} FewDigitsNotFound(subject: string)
    requires CountDigits(subject) < 10
    ensures GetPhoneNumber(subject) == NotFound
  {
    forall i, e | 0 <= i <= e <= |subject|
      ensures !Matches(subject[i..e])
    {
      assert subject == subject[..i] + subject[i..e] + subject[e..];
      CountDigitsConcat(subject[..i] + subject[i..e], subject[e..]);
      CountDigitsConcat(subject[..i], subject[i..e]);
      if Matches(subject[i..e]) {
        MatchHoldsTenDigits(subject[i..e]);
      }
    }
    NotFoundIffNoMatch(subject);
  }

  /** The subject line of the source's failing test: only eight digits follow
      the `0`, so nothing is found. */
  lemma TestedSubjectWithShortNumber(subject: string)
    requires subject == "Voice Message Attached from 077123456 - name unavailable"
    ensures GetPhoneNumber(subject) == NotFound
  {
    var lead, number, tail := "Voice Message Attached from ", "077123456", " - name unavailable";
    assert subject == lead + number + tail;
    NoDigitIn(lead, tail);
    AllDigitsNine(number);
    DigitsOfParts(lead, number, tail);
    FewDigitsNotFound(subject);
  }

  /** Digits only in the middle part: the count is the middle part's length. */
  lemma DigitsOfParts(lead: string, number: string, tail: string)
    requires forall k :: 0 <= k < |lead| ==> !IsDigit(lead[k])
    requires forall k :: 0 <= k < |number| ==> IsDigit(number[k])
    requires forall k :: 0 <= k < |tail| ==> !IsDigit(tail[k])
    ensures CountDigits(lead + number + tail) == |number|
  {
    CountDigitsConcat(lead, number);
    CountDigitsConcat(lead + number, tail);
    CountDigitsUniform(lead, false);
    CountDigitsUniform(number, true);
    CountDigitsUniform(tail, false);
  }

  /** A string made only of digits, or only of non-digits. */
  lemma {:induction false} CountDigitsUniform(t: string, digits: bool)
    requires forall k :: 0 <= k < |t| ==> IsDigit(t[k]) == digits
    ensures CountDigits(t) == if digits then |t| else 0
  {
    if t != [] {
      assert forall k :: 0 <= k < |t[1..]| ==> t[1..][k] == t[k + 1];
      CountDigitsUniform(t[1..], digits);
    }
  }

  lemma NoDigitIn(lead: string, tail: string)
    requires lead == "Voice Message Attached from "
    requires tail == " - name unavailable"
    ensures forall k :: 0 <= k < |lead| ==> !IsDigit(lead[k])
    ensures forall k :: 0 <= k < |tail| ==> !IsDigit(tail[k])
  {
    var a, b, c := "Voice Mess", "age Attach", "ed from ";
    assert lead == a + b + c;
    assert forall k :: 0 <= k < |a| ==> !IsDigit(a[k]);
    assert forall k :: 0 <= k < |b| ==> !IsDigit(b[k]);
    assert forall k :: 0 <= k < |c| ==> !IsDigit(c[k]);
    var d, e := " - name un", "available";
    assert tail == d + e;
    assert forall k :: 0 <= k < |d| ==> !IsDigit(d[k]);
    assert forall k :: 0 <= k < |e| ==> !IsDigit(e[k]);
  }

  lemma AllDigitsNine(d: string)
    requires d == "077123456"
    ensures forall k :: 0 <= k < |d| ==> IsDigit(d[k])
  {
  }

  lemma NoStartCharIn(lead: string)
    requires lead == "Voice Message Attached from "
    ensures forall k :: 0 <= k < |lead| ==> !IsStartChar(lead[k])
  {
    var a, b, c := "Voice Mess", "age Attach", "ed from ";
    assert lead == a + b + c;
    assert forall k :: 0 <= k < |a| ==> !IsStartChar(a[k]);
    assert forall k :: 0 <= k < |b| ==> !IsStartChar(b[k]);
    assert forall k :: 0 <= k < |c| ==> !IsStartChar(c[k]);
  }
}
