/** TAI-UTC from `tai-utc.dat`: a step function read by scanning the table
    from its first line, keeping the offset of every entry that has already
    taken effect and stopping at the first blank line or the first entry
    still in the future. */
module LeapSeconds {
  import opened Php
  import opened Instant
  import opened Bulletin

  /** The Julian Day from which an entry applies. */
  function EntryJd(line: string, num: Numeric): real {
    num.toReal(Substr(line, 17, 9))
  }

  /** The TAI-UTC offset, in seconds, of an entry. */
  function EntryOffset(line: string, num: Numeric): real {
    num.toReal(Substr(line, 38, 10))
  }

  /** The scan stops at a line that trims to nothing (one of blanks only),
      or at an entry whose Julian Day lies strictly after the query. */
  predicate Stops(line: string, jd: real, num: Numeric) {
    AllBlank(line) || EntryJd(line, num) > jd
  }

  /** The number of lines the scan consumes: the index of the first line
      that stops it, or the whole file. */
  function StopIndex(lines: seq<string>, jd: real, num: Numeric): (n: nat)
    ensures n <= |lines|
    ensures forall k :: 0 <= k < n ==> !Stops(lines[k], jd, num)
    ensures n < |lines| ==> Stops(lines[n], jd, num)
  {
    if lines == [] || Stops(lines[0], jd, num) then 0
    else
      var n := StopIndex(lines[1..], jd, num);
      assert forall k :: 0 < k < |lines| ==> lines[k] == lines[1..][k - 1];
      1 + n
  }

  /** The first blank line, or the end of the file: the table proper. */
  function TableEnd(lines: seq<string>): (n: nat)
    ensures n <= |lines|
    ensures forall k :: 0 <= k < n ==> !AllBlank(lines[k])
    ensures n < |lines| ==> AllBlank(lines[n])
  {
    if lines == [] || AllBlank(lines[0]) then 0
    else
      var n := TableEnd(lines[1..]);
      assert forall k :: 0 < k < |lines| ==> lines[k] == lines[1..][k - 1];
      1 + n
  }

  /** Entries take effect in strictly increasing order of Julian Day. */
  predicate Ascending(lines: seq<string>, num: Numeric) {
    forall i, j :: 0 <= i < j < TableEnd(lines) ==> EntryJd(lines[i], num) < EntryJd(lines[j], num)
  }

  /** Entry `k` of the table proper is the last one in effect at `jd`: it
      applies from `jd` or earlier, and the entry after it, if any, only
      later. */
  predicate LastInEffect(lines: seq<string>, jd: real, num: Numeric, k: int) {
    0 <= k < TableEnd(lines) && EntryJd(lines[k], num) <= jd
    && (k + 1 < TableEnd(lines) ==> EntryJd(lines[k + 1], num) > jd)
  }

  /** `leapSec()`: the offset of the last line the scan consumed, 0 when it
      consumed none. In an ascending table that is the offset of the last
      entry of the table proper already in effect at the query, ties
      included, and 0 when no entry is yet in effect. */
  function LeapSec(t: Iers, lines: seq<string>, num: Numeric): (r: real)
    ensures StopIndex(lines, t.jd, num) == 0 ==> r == 0.0
    ensures StopIndex(lines, t.jd, num) > 0 ==>
              r == EntryOffset(lines[StopIndex(lines, t.jd, num) - 1], num)
    ensures Ascending(lines, num) ==>
              forall k :: LastInEffect(lines, t.jd, num, k) ==> r == EntryOffset(lines[k], num)
    ensures Ascending(lines, num) && (TableEnd(lines) == 0 || EntryJd(lines[0], num) > t.jd) ==> r == 0.0
  {
    var n := StopIndex(lines, t.jd, num);
    var r := if n == 0 then 0.0 else EntryOffset(lines[n - 1], num);
    if Ascending(lines, num) then
      StopsAfterLastInEffect(lines, t.jd, num);
      r
    else r
  }

  /** The loop of `leapSec()`, line by line. */
  method LeapSecScan(t: Iers, lines: seq<string>, num: Numeric) returns (taiUtc: real)
    ensures taiUtc == LeapSec(t, lines, num)
  {
    ghost var n := StopIndex(lines, t.jd, num);
    taiUtc := 0.0;
    var i := 0;
    while i < |lines|
      invariant 0 <= i <= n
      invariant taiUtc == if i == 0 then 0.0 else EntryOffset(lines[i - 1], num)
    {
      var line := lines[i];
      assert i < n ==> !Stops(line, t.jd, num);
      if Trim(line) == "" {
        break;
      }
      var jd := EntryJd(line, num);
      if jd > t.jd {
        break;
      }
      assert i == n ==> Stops(line, t.jd, num);
      taiUtc := EntryOffset(line, num);
      i := i + 1;
    }
    assert i == n;
  }

  /** In an ascending table the scan stops right after the last entry of
      the table proper already in effect. */
  lemma StopsAfterLastInEffect(lines: seq<string>, jd: real, num: Numeric)
    requires Ascending(lines, num)
    ensures forall k :: LastInEffect(lines, jd, num, k) ==> StopIndex(lines, jd, num) == k + 1
    ensures TableEnd(lines) == 0 || EntryJd(lines[0], num) > jd ==> StopIndex(lines, jd, num) == 0
  {
    StopIndexCountsEntriesInEffect(lines, jd, num);
  }

  /** In an ascending table the scan consumes exactly the entries already in
      effect: those of the table proper whose Julian Day is at most the
      query's, ties included. */
  lemma StopIndexCountsEntriesInEffect(lines: seq<string>, jd: real, num: Numeric)
    requires Ascending(lines, num)
    ensures var n := StopIndex(lines, jd, num);
            n <= TableEnd(lines)
            && (forall k :: 0 <= k < n ==> EntryJd(lines[k], num) <= jd)
            && (forall k :: n <= k < TableEnd(lines) ==> EntryJd(lines[k], num) > jd)
  {
    var n := StopIndex(lines, jd, num);
    var e := TableEnd(lines);
    assert e < |lines| ==> Stops(lines[e], jd, num);
    forall k | n <= k < e
      ensures EntryJd(lines[k], num) > jd
    {
      assert !AllBlank(lines[n]);
      assert EntryJd(lines[n], num) > jd;
    }
  }

  /** In an ascending table the result is the offset of the last entry of
      the table proper already in effect at the query, ties included. */
  lemma LeapSecIsLastEntryInEffect(t: Iers, lines: seq<string>, num: Numeric, k: nat)
    requires Ascending(lines, num)
    requires k < TableEnd(lines) && EntryJd(lines[k], num) <= t.jd
    requires k + 1 < TableEnd(lines) ==> EntryJd(lines[k + 1], num) > t.jd
    ensures LeapSec(t, lines, num) == EntryOffset(lines[k], num)
  {
  }

  /** A query before the first entry gets no leap seconds. */
  lemma BeforeTableIsZero(t: Iers, lines: seq<string>, num: Numeric)
    requires |lines| > 0 && EntryJd(lines[0], num) > t.jd
    ensures LeapSec(t, lines, num) == 0.0
  {
  }

  /** At the very Julian Day an entry takes effect, its offset applies: the
      comparison that stops the scan is strict. */
  lemma EntryAppliesOnItsDay(t: Iers, lines: seq<string>, num: Numeric, k: nat)
    requires Ascending(lines, num)
    requires k < TableEnd(lines) && EntryJd(lines[k], num) == t.jd
    ensures LeapSec(t, lines, num) == EntryOffset(lines[k], num)
  {
    assert k + 1 < TableEnd(lines) ==> EntryJd(lines[k + 1], num) > t.jd;
    LeapSecIsLastEntryInEffect(t, lines, num, k);
  }

  /** Leap seconds are a step function: two queries with no entry taking
      effect between them, the later one included, get the same offset. */
  lemma {:induction false} StepBetweenEntries(lines: seq<string>, jd1: real, jd2: real, num: Numeric)
    requires jd1 <= jd2
    requires forall k :: 0 <= k < TableEnd(lines) ==> !(jd1 < EntryJd(lines[k], num) <= jd2)
    ensures StopIndex(lines, jd1, num) == StopIndex(lines, jd2, num)
  {
    if lines != [] && !AllBlank(lines[0]) {
      assert TableEnd(lines) == 1 + TableEnd(lines[1..]);
      assert !(jd1 < EntryJd(lines[0], num) <= jd2);
      if !Stops(lines[0], jd1, num) && !Stops(lines[0], jd2, num) {
        forall k | 0 <= k < TableEnd(lines[1..])
          ensures !(jd1 < EntryJd(lines[1..][k], num) <= jd2)
        {
          assert lines[1..][k] == lines[k + 1];
        }
        StepBetweenEntries(lines[1..], jd1, jd2, num);
      }
    }
  }

  /** The offset is constant between entries. */
  lemma LeapSecConstantBetweenEntries(t1: Iers, t2: Iers, lines: seq<string>, num: Numeric)
    requires t1.jd <= t2.jd
    requires forall k :: 0 <= k < TableEnd(lines) ==> !(t1.jd < EntryJd(lines[k], num) <= t2.jd)
    ensures LeapSec(t1, lines, num) == LeapSec(t2, lines, num)
  {
    StepBetweenEntries(lines, t1.jd, t2.jd, num);
  }
}
