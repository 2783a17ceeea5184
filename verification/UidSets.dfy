/** UID sets of the IMAP client (src/imap/command.rs, `format_uid_set`): printed with the fewest possible ranges,
    and read back by the grammar of a sequence-set, section 9 of RFC 3501. */
module UidSets {
  import opened Wrappers
  import opened Text
  import opened Sorting

  const U32_LIMIT := 0x1_0000_0000

  predicate AreU32(uids: seq<int>) {
    forall i :: 0 <= i < |uids| ==> 0 <= uids[i] < U32_LIMIT
  }

  /** One can be added to every number that another follows; so it is in a strictly increasing list. */
  predicate AddsUp(uids: seq<int>) {
    forall i :: 0 <= i < |uids| - 1 ==> uids[i] + 1 < U32_LIMIT
  }

  datatype UidRange = UidRange(lo: nat, hi: nat)

  // ----- printing

  /** The end of the run of consecutive numbers that begins at index `i`. */
  function RunEnd(s: seq<int>, i: nat): (j: nat)
    requires i < |s|
    ensures i < j <= |s|
    ensures s[j - 1] == s[i] + (j - 1 - i)
    ensures j < |s| ==> s[j] != s[j - 1] + 1
    decreases |s| - i
  {
    if i + 1 < |s| && s[i + 1] == s[i] + 1 then RunEnd(s, i + 1) else i + 1
  }

  function Runs(s: seq<int>, i: nat): seq<UidRange>
    requires AreU32(s)
    decreases |s| - i
  {
    if i >= |s| then [] else [UidRange(s[i], s[RunEnd(s, i) - 1])] + Runs(s, RunEnd(s, i))
  }

  function PrintRange(r: UidRange): string {
    if r.lo == r.hi then Decimal(r.lo) else Decimal(r.lo) + ":" + Decimal(r.hi)
  }

  function PrintRanges(rs: seq<UidRange>): string {
    if rs == [] then "" else PrintRange(rs[0]) + PrintMore(rs[1..])
  }

  function PrintMore(rs: seq<UidRange>): string {
    if rs == [] then "" else "," + PrintRange(rs[0]) + PrintMore(rs[1..])
  }

  function Canonical(uids: seq<int>, isSorted: bool): seq<int> {
    if isSorted then uids else SortDedup(uids)
  }

  lemma CanonicalIs(uids: seq<int>, isSorted: bool)
    requires AreU32(uids) && (isSorted ==> AddsUp(uids))
    ensures var s := Canonical(uids, isSorted);
      && AreU32(s) && AddsUp(s) && (forall u :: u in s <==> u in uids)
      && (StrictlyIncreasing(s) <==> (isSorted ==> StrictlyIncreasing(uids)))
  {
    var s := Canonical(uids, isSorted);
    forall i | 0 <= i < |s|
      ensures 0 <= s[i] < U32_LIMIT
    {
      assert s[i] in uids;
    }
    if !isSorted {
      forall i | 0 <= i < |s| - 1
        ensures s[i] + 1 < U32_LIMIT
      {
        assert s[i] < s[i + 1];
      }
    }
  }

  lemma {:induction false} PrintMoreAppend(rs: seq<UidRange>, r: UidRange)
    ensures PrintMore(rs + [r]) == PrintMore(rs) + ("," + PrintRange(r))
  {
    hide PrintRange;
    var tail := "," + PrintRange(r);
    if rs == [] {
      assert rs + [r] == [r] && [r][1..] == [] && PrintMore([]) == "";
      assert tail + "" == tail && "" + tail == tail;
    } else {
      PrintMoreAppend(rs[1..], r);
      assert (rs + [r])[1..] == rs[1..] + [r];
      Associative("," + PrintRange(rs[0]), PrintMore(rs[1..]), tail);
    }
  }

  lemma PrintAppend(rs: seq<UidRange>, r: UidRange)
    ensures PrintRanges(rs + [r]) == if rs == [] then PrintRange(r) else PrintRanges(rs) + ("," + PrintRange(r))
  {
    hide PrintRange;
    if rs == [] {
      assert rs + [r] == [r] && [r][1..] == [] && PrintMore([]) == "";
      assert PrintRange(r) + "" == PrintRange(r);
    } else {
      PrintMoreAppend(rs[1..], r);
      assert (rs + [r])[1..] == rs[1..] + [r];
      Associative(PrintRange(rs[0]), PrintMore(rs[1..]), "," + PrintRange(r));
    }
  }

  lemma RunsStep(s: seq<int>, i: nat, done: seq<UidRange>, r: UidRange)
    requires AreU32(s) && i < |s| && r == UidRange(s[i], s[RunEnd(s, i) - 1])
    requires done + Runs(s, i) == Runs(s, 0)
    ensures done + [r] + Runs(s, RunEnd(s, i)) == Runs(s, 0)
  {
    assert Runs(s, i) == [r] + Runs(s, RunEnd(s, i));
    hide Runs;
    Associative(done, [r], Runs(s, RunEnd(s, i)));
  }

  /** The inner loop: the last element of the run that begins at index `i`, and the index after it. The addition
      `end + 1` stays below 2 to the 32nd: it is made only when another element follows. */
  method FindRunEnd(slice: seq<int>, i: nat) returns (end: int, j: nat)
    requires AreU32(slice) && AddsUp(slice) && i < |slice|
    ensures j == RunEnd(slice, i) && end == slice[j - 1]
  {
    end := slice[i];
    j := i + 1;
    while j < |slice| && slice[j] == end + 1
      invariant i < j <= |slice|
      invariant end == slice[j - 1]
      invariant RunEnd(slice, j - 1) == RunEnd(slice, i)
      invariant j < |slice| ==> end + 1 < U32_LIMIT
    {
      end := slice[j];
      j := j + 1;
    }
  }

  /** The outer loop of `format_uid_set`. */
  method PrintSlice(slice: seq<int>) returns (out: string)
    requires AreU32(slice) && AddsUp(slice)
    ensures out == PrintRanges(Runs(slice, 0))
  {
    hide PrintRanges, PrintMore, PrintRange, Runs, RunEnd, AddsUp;
    NoRanges(slice);
    out := "";
    var i := 0;
    var first := true;
    ghost var done: seq<UidRange> := [];
    assert done + Runs(slice, 0) == Runs(slice, 0);
    while i < |slice|
      invariant 0 <= i <= |slice|
      invariant first <==> done == []
      invariant out == PrintRanges(done)
      invariant done + Runs(slice, i) == Runs(slice, 0)
      decreases |slice| - i
    {
      var start := slice[i];
      var end, j := FindRunEnd(slice, i);
      ghost var r := UidRange(start, end);
      PrintAppend(done, r);
      RunsStep(slice, i, done, r);
      out := AppendRange(out, first, start, end);
      done := done + [r];
      first := false;
      i := j;
    }
    assert done + Runs(slice, i) == done;
  }

  /** `format_uid_set`. A list said to be sorted, which need not be, is taken as it is. */
  method FormatUidSet(uids: seq<int>, isSorted: bool) returns (out: string)
    requires AreU32(uids) && (isSorted ==> AddsUp(uids))
    ensures AreU32(Canonical(uids, isSorted))
    ensures out == PrintRanges(Runs(Canonical(uids, isSorted), 0))
  {
    CanonicalIs(uids, isSorted);
    NoRanges([]);
    hide PrintRanges, Runs, SortDedup;
    if uids == [] {
      EmptyCanonical(isSorted);
      return "";
    }
    out := PrintSlice(if isSorted then uids else SortDedup(uids));
  }

  lemma EmptyCanonical(isSorted: bool)
    ensures Canonical([], isSorted) == []
  {
  }

  /** The writes of one round: a comma after the first, and the range. */
  method AppendRange(out: string, first: bool, start: nat, end: nat) returns (r: string)
    requires first ==> out == ""
    ensures r == if first then PrintRange(UidRange(start, end)) else out + ("," + PrintRange(UidRange(start, end)))
  {
    hide Decimal;
    r := out;
    if !first {
      r := r + ",";
    }
    ghost var was := r;
    if start == end {
      r := r + Decimal(start);
    } else {
      r := r + (Decimal(start) + ":" + Decimal(end));
    }
    assert r == was + PrintRange(UidRange(start, end));
    if !first {
      Associative(out, ",", PrintRange(UidRange(start, end)));
    }
  }

  lemma NoRanges(s: seq<int>)
    requires AreU32(s)
    ensures PrintRanges([]) == "" && Runs(s, |s|) == [] && Runs([], 0) == []
  {
  }

  // ----- the ranges are the set, and as few as possible

  predicate In(rs: seq<UidRange>, u: int) {
    exists i :: 0 <= i < |rs| && rs[i].lo <= u <= rs[i].hi
  }

  /** Increasing, and with a gap between each range and the next. */
  predicate Separated(rs: seq<UidRange>) {
    && (forall i :: 0 <= i < |rs| ==> rs[i].lo <= rs[i].hi)
    && (forall i, j :: 0 <= i < j < |rs| ==> rs[i].hi + 1 < rs[j].lo)
  }

  lemma {:induction false} RunContains(s: seq<int>, i: nat, u: int)
    requires i < |s|
    ensures s[i] <= u <= s[RunEnd(s, i) - 1] <==> exists k :: i <= k < RunEnd(s, i) && s[k] == u
    decreases |s| - i
  {
    var j := RunEnd(s, i);
    if i + 1 < j {
      RunContains(s, i + 1, u);
    }
  }

  lemma InTail(rs: seq<UidRange>, u: int)
    requires rs != []
    ensures In(rs, u) <==> rs[0].lo <= u <= rs[0].hi || In(rs[1..], u)
  {
    assert rs == [rs[0]] + rs[1..];
    if In(rs[1..], u) {
      var i :| 0 <= i < |rs[1..]| && rs[1..][i].lo <= u <= rs[1..][i].hi;
      assert rs[i + 1] == rs[1..][i];
    }
    if In(rs, u) && !(rs[0].lo <= u <= rs[0].hi) {
      var i :| 0 <= i < |rs| && rs[i].lo <= u <= rs[i].hi;
      assert rs[1..][i - 1] == rs[i];
    }
  }

  lemma {:induction false} RunsAreSet(s: seq<int>, i: nat, u: int)
    requires AreU32(s)
    ensures In(Runs(s, i), u) <==> exists k :: i <= k < |s| && s[k] == u
    decreases |s| - i
  {
    if i < |s| {
      var j := RunEnd(s, i);
      RunContains(s, i, u);
      RunsAreSet(s, j, u);
      var rs := Runs(s, i);
      assert rs[1..] == Runs(s, j);
      InTail(rs, u);
    }
  }

  lemma {:induction false} RunsSeparated(s: seq<int>, i: nat)
    requires AreU32(s) && StrictlyIncreasing(s)
    ensures Separated(Runs(s, i))
    ensures forall r :: r in Runs(s, i) ==> i < |s| && s[i] <= r.lo
    decreases |s| - i
  {
    if i < |s| {
      var j := RunEnd(s, i);
      RunsSeparated(s, j);
      var rest := Runs(s, j);
      assert Runs(s, i) == [UidRange(s[i], s[j - 1])] + rest;
      assert forall k :: 0 <= k < |rest| ==> rest[k] in rest;
      if j < |s| {
        assert s[j - 1] + 1 < s[j];
      }
    }
  }

  lemma {:induction false} RunIs(s: seq<int>, i: nat, k: nat)
    requires i <= k < |s| && k < RunEnd(s, i)
    ensures s[k] == s[i] + (k - i)
    decreases k - i
  {
    if i < k {
      RunIs(s, i + 1, k);
    }
  }

  /** Ranges with gaps between them come only from increasing numbers. */
  lemma {:induction false} SeparatedIncrease(s: seq<int>, i: nat, a: nat, b: nat)
    requires AreU32(s) && Separated(Runs(s, i)) && i <= a < b < |s|
    ensures s[i] <= s[a] < s[b]
    decreases |s| - i
  {
    var j, rs := RunEnd(s, i), Runs(s, i);
    assert rs[1..] == Runs(s, j) && rs[0] == UidRange(s[i], s[j - 1]);
    if a < j {
      RunIs(s, i, a);
    }
    if b < j {
      RunIs(s, i, b);
    } else {
      assert rs[1].lo == s[j] && rs[0].hi + 1 < rs[1].lo;
      if j < b {
        SeparatedIncrease(s, j, if a < j then j else a, b);
      }
    }
  }

  lemma SeparatedIsIncreasing(s: seq<int>)
    requires AreU32(s)
    ensures Separated(Runs(s, 0)) <==> StrictlyIncreasing(s)
  {
    hide Runs, Separated;
    if StrictlyIncreasing(s) {
      RunsSeparated(s, 0);
    }
    if Separated(Runs(s, 0)) {
      forall a, b | 0 <= a < b < |s|
        ensures s[a] < s[b]
      {
        SeparatedIncrease(s, 0, a, b);
      }
    }
  }

  /** The set of the numbers below `n`. */
  function Below(n: nat): (r: set<int>)
    ensures |r| == n && forall i :: i in r <==> 0 <= i < n
  {
    if n == 0 then {} else Below(n - 1) + {n - 1}
  }

  /** One index of `other` for each of the first `n` separated ranges, no two the same. */
  lemma {:induction false} Witnesses(rs: seq<UidRange>, other: seq<UidRange>, n: nat) returns (used: set<int>)
    requires n <= |rs| && Separated(rs) && forall u :: In(rs, u) <==> In(other, u)
    ensures |used| == n && used <= Below(|other|)
    ensures forall j :: j in used ==> exists i :: 0 <= i < n && other[j].lo <= rs[i].lo <= other[j].hi
  {
    if n == 0 {
      used := {};
    } else {
      hide In, Separated;
      used := Witnesses(rs, other, n - 1);
      var j := Holder(rs, other, n - 1);
      if j in used {
        var i :| 0 <= i < n - 1 && other[j].lo <= rs[i].lo <= other[j].hi;
        NotInBoth(rs, other, i, n - 1, j);
      }
      used := used + {j};
    }
  }

  /** Some range of the same numbers holds the first of a range. */
  lemma Holder(rs: seq<UidRange>, other: seq<UidRange>, k: nat) returns (j: nat)
    requires Separated(rs) && k < |rs|
    requires forall u :: In(rs, u) <==> In(other, u)
    ensures j < |other| && other[j].lo <= rs[k].lo <= other[j].hi
  {
    var r := rs[k];
    assert r.lo <= r.hi;
    assert In(rs, r.lo);
    j :| 0 <= j < |other| && other[j].lo <= r.lo <= other[j].hi;
  }

  /** No range of the same numbers reaches over a gap. */
  lemma NotInBoth(rs: seq<UidRange>, other: seq<UidRange>, i: nat, k: nat, j: nat)
    requires Separated(rs) && i < k < |rs| && j < |other|
    requires forall u :: In(rs, u) <==> In(other, u)
    ensures !(other[j].lo <= rs[i].lo <= other[j].hi && other[j].lo <= rs[k].lo <= other[j].hi)
  {
    assert rs[i].lo <= rs[i].hi;
    GapOutside(rs, i, k);
    assert !In(other, rs[i].hi + 1);
  }

  lemma GapOutside(rs: seq<UidRange>, i: nat, j: nat)
    requires Separated(rs) && i < j < |rs|
    ensures rs[i].lo <= rs[i].hi + 1 <= rs[j].lo
    ensures !In(rs, rs[i].hi + 1)
  {
    assert rs[i].hi + 1 < rs[j].lo;
    forall k | 0 <= k < |rs|
      ensures !(rs[k].lo <= rs[i].hi + 1 <= rs[k].hi)
    {
      if k < i {
        assert rs[k].hi + 1 < rs[i].lo;
      } else if i < k {
        assert rs[i].hi + 1 < rs[k].lo;
      }
    }
  }

  /** No list of ranges for the same numbers is shorter. */
  lemma SeparatedIsFewest(rs: seq<UidRange>, other: seq<UidRange>)
    requires Separated(rs) && forall u :: In(rs, u) <==> In(other, u)
    ensures |rs| <= |other|
  {
    var used := Witnesses(rs, other, |rs|);
    SubsetSize(used, Below(|other|));
  }

  // ----- reading a sequence-set

  /** A number without a leading zero that is not zero and fits in 32 bits. */
  function ReadNumber(s: string): Option<nat> {
    if s != [] && AllDigits(s) && s[0] != '0' && DecimalValue(s) < U32_LIMIT then Some(DecimalValue(s)) else None
  }

  function ReadRange(s: string): Option<UidRange> {
    var first := BeforeFirst(s, ':');
    var lo :- ReadNumber(first);
    if |first| == |s| then Some(UidRange(lo, lo))
    else
      var hi :- ReadNumber(s[|first| + 1..]);
      Some(UidRange(if lo <= hi then lo else hi, if lo <= hi then hi else lo))
  }

  /** The ranges of a sequence-set; `*` is not read. */
  function ReadSet(s: string): Option<seq<UidRange>>
    decreases |s|
  {
    var first := BeforeFirst(s, ',');
    var r :- ReadRange(first);
    if |first| == |s| then Some([r])
    else
      var rest :- ReadSet(s[|first| + 1..]);
      Some([r] + rest)
  }

  lemma {:induction false} NoLeadingZero(n: nat)
    ensures Decimal(n)[0] == '0' <==> n == 0
  {
    if n >= 10 {
      NoLeadingZero(n / 10);
      assert Decimal(n)[0] == Decimal(n / 10)[0];
    }
  }

  lemma ReadNumberOf(n: nat)
    requires n < U32_LIMIT
    ensures ReadNumber(Decimal(n)) == if n == 0 then None else Some(n)
  {
    NoLeadingZero(n);
  }

  lemma DigitsHaveNo(s: string, c: char)
    requires AllDigits(s) && !IsDigit(c)
    ensures c !in s
  {
  }

  lemma ReadRangeOf(r: UidRange)
    requires r.lo <= r.hi < U32_LIMIT
    ensures ReadRange(PrintRange(r)) == if r.lo == 0 then None else Some(r)
    ensures ',' !in PrintRange(r)
  {
    var a, b := Decimal(r.lo), Decimal(r.hi);
    DigitsHaveNo(a, ':');
    DigitsHaveNo(a, ',');
    DigitsHaveNo(b, ',');
    ReadNumberOf(r.lo);
    ReadNumberOf(r.hi);
    if r.lo != r.hi {
      assert PrintRange(r) == a + [':'] + b;
      BeforeFirstAt(a, ':', b);
    }
  }

  predicate Fits(rs: seq<UidRange>) {
    forall i :: 0 <= i < |rs| ==> rs[i].lo <= rs[i].hi < U32_LIMIT
  }

  predicate HasZero(rs: seq<UidRange>) {
    exists i :: 0 <= i < |rs| && rs[i].lo == 0
  }

  lemma {:induction false} ReadSetOf(rs: seq<UidRange>)
    requires rs != [] && Fits(rs)
    ensures ReadSet(PrintRanges(rs)) == if HasZero(rs) then None else Some(rs)
  {
    hide PrintRange, ReadRange, HasZero, BeforeFirst;
    var text := PrintRange(rs[0]);
    var rest := rs[1..];
    ReadRangeOf(rs[0]);
    HasZeroTail(rs);
    assert rs == [rs[0]] + rest;
    if rest == [] {
      assert PrintMore([]) == "" && PrintRanges(rs) == text;
      assert BeforeFirst(text, ',') == text && rs == [rs[0]];
      NoZeros();
    } else {
      ReadSetOf(rest);
      assert PrintMore(rest) == [','] + PrintRanges(rest);
      assert PrintRanges(rs) == text + [','] + PrintRanges(rest);
      BeforeFirstAt(text, ',', PrintRanges(rest));
      assert PrintRanges(rs)[|text| + 1..] == PrintRanges(rest);
    }
  }

  lemma NoZeros()
    ensures !HasZero([])
  {
  }

  lemma HasZeroTail(rs: seq<UidRange>)
    requires rs != []
    ensures HasZero(rs) <==> rs[0].lo == 0 || HasZero(rs[1..])
  {
    if HasZero(rs[1..]) {
      var i :| 0 <= i < |rs[1..]| && rs[1..][i].lo == 0;
      assert rs[i + 1].lo == 0;
    }
    if HasZero(rs) && rs[0].lo != 0 {
      var i :| 0 <= i < |rs| && rs[i].lo == 0;
      assert rs[1..][i - 1].lo == 0;
    }
  }

  // ----- the main result

  lemma {:induction false} RunsFit(s: seq<int>, i: nat)
    requires AreU32(s)
    ensures Fits(Runs(s, i))
    decreases |s| - i
  {
    if i < |s| {
      RunsFit(s, RunEnd(s, i));
    }
  }

  /** What is sent reads back as exactly the given UIDs. Text that is no sequence-set comes out exactly for an empty
      list or one that holds 0, which is no UID. The ranges are separated, so that no fewer would do, exactly if a list
      said to be sorted is. */
  lemma PrintedSetIsTheSet(uids: seq<int>, isSorted: bool)
    requires AreU32(uids) && (isSorted ==> AddsUp(uids))
    ensures AreU32(Canonical(uids, isSorted))
    ensures var rs := Runs(Canonical(uids, isSorted), 0);
      && (forall u :: In(rs, u) <==> u in uids)
      && ReadSet(PrintRanges(rs)) == (if uids == [] || 0 in uids then None else Some(rs))
      && (Separated(rs) <==> (isSorted ==> StrictlyIncreasing(uids)))
      && (Separated(rs) ==> forall other :: (forall u :: In(other, u) <==> u in uids) ==> |rs| <= |other|)
  {
    CanonicalIs(uids, isSorted);
    var s := Canonical(uids, isSorted);
    var rs := Runs(s, 0);
    SeparatedIsIncreasing(s);
    RunsFit(s, 0);
    hide Canonical, Runs, Separated, StrictlyIncreasing, AddsUp;
    forall u
      ensures In(rs, u) <==> u in uids
    {
      RunsAreSet(s, 0, u);
    }
    if Separated(rs) {
      forall other: seq<UidRange> | forall u :: In(other, u) <==> u in uids
        ensures |rs| <= |other|
      {
        SeparatedIsFewest(rs, other);
      }
    }
    ReadBack(uids, rs);
  }

  lemma ReadBack(uids: seq<int>, rs: seq<UidRange>)
    requires Fits(rs) && forall u :: In(rs, u) <==> u in uids
    ensures ReadSet(PrintRanges(rs)) == if uids == [] || 0 in uids then None else Some(rs)
  {
    if rs == [] {
      assert uids == [] || In(rs, uids[0]);
    } else {
      assert In(rs, rs[0].lo);
      ReadSetOf(rs);
      assert HasZero(rs) <==> In(rs, 0);
    }
  }
}
