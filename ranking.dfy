/** How `reserve_court` ranks the open slots and which one it ends up booking,
    as pure functions: the start-time key of each title, the stable
    latest-first sort, the two passes over the sorted list, and the first
    candidate whose confirmation succeeds. */
module Ranking {
  import opened Text
  import opened Clock

  /** An open slot on the reservation grid: a handle for its page element and
      its `title` attribute, such as "7:00 PM-8:00 PM". */
  datatype Slot = Slot(element: nat, title: string)

  /** The sort key: the title up to its first dash, stripped, read as a
      12-hour clock time. `None` where `strptime` raises `ValueError`. */
  function StartOf(title: string): Option<nat> {
    ParseClock(Strip(BeforeDash(title)))
  }

  /** Only the text before the first dash decides the key. */
  lemma {:induction false} StartIgnoresEnd(head: string, rest: string)
    requires '-' !in head
    ensures StartOf(head + "-" + rest) == ParseClock(Strip(head))
  {
    BeforeDashOfJoin(head, rest);
  }

  lemma {:induction false} BeforeDashOfJoin(head: string, rest: string)
    requires '-' !in head
    ensures BeforeDash(head + "-" + rest) == head
  {
    if head != [] {
      assert (head + "-" + rest)[1..] == head[1..] + "-" + rest;
      BeforeDashOfJoin(head[1..], rest);
    }
  }

  /** A title the site writes as "h:mm AM-h:mm PM" is keyed by its start time. */
  lemma StartOfSiteTitle(start: nat, finish: nat)
    requires start < MinutesPerDay && finish < MinutesPerDay
    ensures StartOf(FormatClock(start) + "-" + FormatClock(finish)) == Some(start)
  {
    var s := FormatClock(start);
    StartIgnoresEnd(s, FormatClock(finish));
    assert StripStart(s) == 0;
    assert StripEnd(s) == |s|;
    assert Strip(s) == s[0..|s|] == s;
    ParseFormat(start);
  }

  /** A slot paired with its key, as `sorted` sees it. */
  datatype Ranked = Ranked(slot: Slot, start: nat)

  /** The key of every slot under `key`, in discovery order; `None` as soon
      as one slot has no key, since `sorted` computes every key before it
      orders anything. */
  function RankBy(slots: seq<Slot>, key: Slot -> Option<nat>): Option<seq<Ranked>> {
    if slots == [] then Some([])
    else
      match key(slots[0])
      case None => None
      case Some(k) =>
        match RankBy(slots[1..], key)
        case None => None
        case Some(rest) => Some([Ranked(slots[0], k)] + rest)
  }

  /** Ranking succeeds exactly when every slot has a key. */
  lemma {:induction false} RankBySucceedsIff(slots: seq<Slot>, key: Slot -> Option<nat>)
    ensures RankBy(slots, key).Some? <==> forall i :: 0 <= i < |slots| ==> key(slots[i]).Some?
  {
    if slots != [] {
      var tail := slots[1..];
      RankBySucceedsIff(tail, key);
      assert forall i :: 0 <= i < |tail| ==> tail[i] == slots[i + 1];
    }
  }

  /** A successful ranking keeps every slot in its place, paired with its own
      key. */
  lemma {:induction false} RankByKeepsOrder(slots: seq<Slot>, key: Slot -> Option<nat>)
    requires RankBy(slots, key).Some?
    ensures |RankBy(slots, key).value| == |slots|
    ensures forall i :: 0 <= i < |slots| ==>
      key(slots[i]).Some? && RankBy(slots, key).value[i] == Ranked(slots[i], key(slots[i]).value)
  {
    if slots != [] {
      var tail := slots[1..];
      RankByKeepsOrder(tail, key);
      var r := RankBy(slots, key).value;
      assert r == [Ranked(slots[0], key(slots[0]).value)] + RankBy(tail, key).value;
      assert forall i :: 0 <= i < |tail| ==> tail[i] == slots[i + 1];
    }
  }

  /** The key `reserve_court` sorts by: the start time in a slot's title. */
  function StartKey(slot: Slot): Option<nat> {
    StartOf(slot.title)
  }

  /** `sorted`'s keying of the slots found on the page. */
  function RankAll(slots: seq<Slot>): Option<seq<Ranked>> {
    RankBy(slots, StartKey)
  }

  /** Ranking fails exactly when some title has no start time; otherwise every
      slot keeps its place and is paired with its own start time. */
  lemma RankAllSpec(slots: seq<Slot>)
    ensures RankAll(slots).Some? <==> forall i :: 0 <= i < |slots| ==> StartKey(slots[i]).Some?
    ensures RankAll(slots).Some? ==> |RankAll(slots).value| == |slots|
    ensures RankAll(slots).Some? ==>
      forall i :: 0 <= i < |slots| ==>
        StartKey(slots[i]).Some? && RankAll(slots).value[i] == Ranked(slots[i], StartKey(slots[i]).value)
  {
    RankBySucceedsIff(slots, StartKey);
    if RankAll(slots).Some? {
      RankByKeepsOrder(slots, StartKey);
    }
  }

  /** Non-increasing by start time: latest first. */
  predicate LatestFirst(rs: seq<Ranked>) {
    forall i, j :: 0 <= i < j < |rs| ==> rs[i].start >= rs[j].start
  }

  /** Puts `x` before the first entry that does not start later than it, so
      that `x`, which came first in discovery order, stays ahead of its ties. */
  function Insert(x: Ranked, rs: seq<Ranked>): (r: seq<Ranked>)
    ensures multiset(r) == multiset(rs) + multiset{x}
    ensures LatestFirst(rs) ==> LatestFirst(r)
  {
    if rs == [] || x.start >= rs[0].start then [x] + rs
    else
      var tail := Insert(x, rs[1..]);
      assert rs == [rs[0]] + rs[1..];
      InsertBelow(x, rs, tail);
      [rs[0]] + tail
  }

  lemma InsertBelow(x: Ranked, rs: seq<Ranked>, tail: seq<Ranked>)
    requires rs != [] && x.start < rs[0].start
    requires multiset(tail) == multiset(rs[1..]) + multiset{x}
    requires LatestFirst(rs) ==> LatestFirst(tail)
    ensures LatestFirst(rs) ==> LatestFirst([rs[0]] + tail)
  {
    if LatestFirst(rs) {
      var r := [rs[0]] + tail;
      forall i, j | 0 <= i < j < |r| ensures r[i].start >= r[j].start {
        if i == 0 {
          assert r[j] == tail[j - 1];
          assert tail[j - 1] in multiset(tail);
          if r[j] != x {
            assert r[j] in rs[1..];
          }
        } else {
          assert r[i] == tail[i - 1] && r[j] == tail[j - 1];
        }
      }
    }
  }

  /** `sorted(..., reverse=True)` on the keys, as an insertion sort. */
  function SortLatestFirst(rs: seq<Ranked>): seq<Ranked> {
    if rs == [] then [] else Insert(rs[0], SortLatestFirst(rs[1..]))
  }

  /** The sorted list is a permutation of the keyed slots, latest first. */
  lemma {:induction false} SortIsOrderedPermutation(rs: seq<Ranked>)
    ensures multiset(SortLatestFirst(rs)) == multiset(rs)
    ensures LatestFirst(SortLatestFirst(rs))
  {
    if rs != [] {
      SortIsOrderedPermutation(rs[1..]);
      assert rs == [rs[0]] + rs[1..];
    }
  }

  /** The entries with start time `k`, in order. */
  function WithStart(rs: seq<Ranked>, k: nat): seq<Ranked> {
    if rs == [] then []
    else (if rs[0].start == k then [rs[0]] else []) + WithStart(rs[1..], k)
  }

  lemma {:induction false} InsertKeepsTies(x: Ranked, rs: seq<Ranked>, k: nat)
    requires LatestFirst(rs)
    ensures WithStart(Insert(x, rs), k) == (if x.start == k then [x] else []) + WithStart(rs, k)
  {
    if rs == [] || x.start >= rs[0].start {
      assert Insert(x, rs) == [x] + rs;
      assert ([x] + rs)[1..] == rs;
    } else {
      var tail := Insert(x, rs[1..]);
      assert Insert(x, rs) == [rs[0]] + tail;
      assert ([rs[0]] + tail)[1..] == tail;
      InsertKeepsTies(x, rs[1..], k);
      var first, mine := if rs[0].start == k then [rs[0]] else [], if x.start == k then [x] else [];
      assert WithStart(rs, k) == first + WithStart(rs[1..], k);
      assert first == [] || mine == [];
      Assoc(first, mine, WithStart(rs[1..], k));
    }
  }

  /** The sort is stable: entries with equal start times keep their
      discovery order. */
  lemma {:induction false} SortIsStable(rs: seq<Ranked>, k: nat)
    ensures WithStart(SortLatestFirst(rs), k) == WithStart(rs, k)
  {
    if rs != [] {
      SortIsStable(rs[1..], k);
      SortIsOrderedPermutation(rs[1..]);
      InsertKeepsTies(rs[0], SortLatestFirst(rs[1..]), k);
    }
  }

  /** The hours that the first pass looks for anywhere in a title. */
  const PreferredTimes: seq<string> := ["6:00 PM", "7:00 PM", "8:00 PM"]

  /** Python's `any(t in title for t in times)`. */
  predicate AnyOccurs(title: string, times: seq<string>) {
    times != [] && (Contains(title, times[0]) || AnyOccurs(title, times[1..]))
  }

  /** Python's `all(t not in title for t in times)`. */
  predicate NoneOccurs(title: string, times: seq<string>) {
    times == [] || (!Contains(title, times[0]) && NoneOccurs(title, times[1..]))
  }

  /** The first pass's test: some preferred hour occurs in the title. */
  predicate IsPreferred(title: string) {
    AnyOccurs(title, PreferredTimes)
  }

  /** The second pass's test: no preferred hour occurs in the title. It is the
      exact negation of the first pass's test. */
  function IsFallback(title: string): (b: bool)
    ensures b <==> !IsPreferred(title)
  {
    AllAbsentIsNotAny(title, PreferredTimes);
    NoneOccurs(title, PreferredTimes)
  }

  lemma {:induction false} AllAbsentIsNotAny(title: string, times: seq<string>)
    ensures NoneOccurs(title, times) <==> !AnyOccurs(title, times)
  {
    if times != [] {
      AllAbsentIsNotAny(title, times[1..]);
    }
  }

  /** A preferred hour counts wherever it occurs in the title, so a slot that
      ends at 6 PM is tried in the first pass. */
  lemma EndingAtSixIsPreferred()
    ensures IsPreferred("5:00 PM-6:00 PM")
  {
    assert OccursAt("5:00 PM-6:00 PM", "6:00 PM", 8);
    ContainsIffOccurs("5:00 PM-6:00 PM", "6:00 PM");
  }

  /** Each preferred string reads "h:00 PM", so a title without the digit
      zero contains none of them and is left to the second pass. */
  lemma {:induction false} NoZeroIsFallback(title: string)
    requires '0' !in title
    ensures !IsPreferred(title)
  {
    forall needle | needle in PreferredTimes
      ensures !Contains(title, needle)
    {
      ContainsIffOccurs(title, needle);
      forall i: nat
        ensures !OccursAt(title, needle, i)
      {
        if i + |needle| <= |title| {
          assert title[i..i + |needle|][2] == title[i + 2] != needle[2];
        }
      }
    }
    NoneContainedIsNotAny(title, PreferredTimes);
  }

  lemma {:induction false} NoneContainedIsNotAny(title: string, times: seq<string>)
    requires forall t :: t in times ==> !Contains(title, t)
    ensures !AnyOccurs(title, times)
  {
    if times != [] {
      assert times[0] in times;
      NoneContainedIsNotAny(title, times[1..]);
    }
  }

  /** Only the three exact strings count: a slot starting at a quarter past
      six is tried in the second pass. */
  lemma QuarterPastSixIsFallback()
    ensures !IsPreferred("6:15 PM-7:15 PM")
  {
    NoZeroIsFallback("6:15 PM-7:15 PM");
  }

  /** The entries a pass acts on, in the order it meets them. */
  function Pass(rs: seq<Ranked>, preferred: bool): seq<Ranked> {
    if rs == [] then []
    else (if IsPreferred(rs[0].slot.title) == preferred then [rs[0]] else []) + Pass(rs[1..], preferred)
  }

  /** A pass acts only on entries of the list that its test admits, and keeps
      their order. */
  lemma {:induction false} PassSelects(rs: seq<Ranked>, preferred: bool)
    ensures forall y :: y in Pass(rs, preferred) ==> y in rs && IsPreferred(y.slot.title) == preferred
    ensures LatestFirst(rs) ==> LatestFirst(Pass(rs, preferred))
  {
    if rs != [] {
      PassSelects(rs[1..], preferred);
    }
  }

  /** The order in which `reserve_court` tries the slots: the first pass's,
      then the second pass's. */
  function Candidates(rs: seq<Ranked>): seq<Ranked> {
    Pass(rs, true) + Pass(rs, false)
  }

  lemma {:induction false} PassesSplit(rs: seq<Ranked>)
    ensures multiset(Pass(rs, true)) + multiset(Pass(rs, false)) == multiset(rs)
  {
    if rs != [] {
      PassesSplit(rs[1..]);
      assert rs == [rs[0]] + rs[1..];
    }
  }

  /** Every slot is tried at most once: the two passes together hold each
      sorted entry exactly as often as the sorted list does. */
  lemma CandidatesArePermutation(rs: seq<Ranked>)
    ensures multiset(Candidates(rs)) == multiset(rs)
  {
    PassesSplit(rs);
  }

  /** Every preferred slot is tried before any other, and within each pass the
      later slot is tried first. */
  lemma CandidatesOrder(rs: seq<Ranked>)
    requires LatestFirst(rs)
    ensures var c := Candidates(rs);
      forall i, j :: 0 <= i < j < |c| ==>
        (IsPreferred(c[j].slot.title) ==> IsPreferred(c[i].slot.title))
        && (IsPreferred(c[i].slot.title) == IsPreferred(c[j].slot.title) ==> c[i].start >= c[j].start)
  {
    var p, f := Pass(rs, true), Pass(rs, false);
    PassSelects(rs, true);
    PassSelects(rs, false);
    var c := p + f;
    forall i, j | 0 <= i < j < |c|
      ensures IsPreferred(c[j].slot.title) ==> IsPreferred(c[i].slot.title)
      ensures IsPreferred(c[i].slot.title) == IsPreferred(c[j].slot.title) ==> c[i].start >= c[j].start
    {
      if i < |p| { assert c[i] in p; } else { assert c[i] == f[i - |p|] && c[i] in f; }
      if j < |p| { assert c[j] in p; } else { assert c[j] == f[j - |p|] && c[j] in f; }
    }
  }

  /** The position of the first entry whose confirmation succeeds. */
  function FirstAccepted(c: seq<Ranked>, confirms: Slot -> bool): (r: Option<nat>)
    ensures r.Some? ==> (r.value < |c| && confirms(c[r.value].slot)
      && forall j :: 0 <= j < r.value ==> !confirms(c[j].slot))
    ensures r.None? ==> forall j :: 0 <= j < |c| ==> !confirms(c[j].slot)
  {
    if c == [] then None
    else if confirms(c[0].slot) then Some(0)
    else
      match FirstAccepted(c[1..], confirms)
      case None => None
      case Some(k) => Some(k + 1)
  }

  /** The slot `reserve_court` books, given the keyed slots in discovery order. */
  function Chosen(rs: seq<Ranked>, confirms: Slot -> bool): Option<nat> {
    FirstAccepted(Candidates(SortLatestFirst(rs)), confirms)
  }

  /** A slot is booked exactly when some discovered slot would confirm. */
  lemma ChosenIffSomeConfirms(rs: seq<Ranked>, confirms: Slot -> bool)
    ensures Chosen(rs, confirms).Some? <==> exists i :: 0 <= i < |rs| && confirms(rs[i].slot)
  {
    var c := Candidates(SortLatestFirst(rs));
    SortIsOrderedPermutation(rs);
    CandidatesArePermutation(SortLatestFirst(rs));
    assert multiset(c) == multiset(rs);
    if i :| 0 <= i < |rs| && confirms(rs[i].slot) {
      assert rs[i] in multiset(c);
      var j :| 0 <= j < |c| && c[j] == rs[i];
    }
    if Chosen(rs, confirms).Some? {
      var k := Chosen(rs, confirms).value;
      assert c[k] in multiset(rs);
    }
  }

  /** The booked slot is preferred whenever some preferred slot would confirm,
      and no slot of its own pass that would confirm starts later. */
  lemma ChosenIsLatestOfBestPass(rs: seq<Ranked>, confirms: Slot -> bool, y: Ranked)
    requires y in rs && confirms(y.slot)
    ensures Chosen(rs, confirms).Some?
    ensures var c := Candidates(SortLatestFirst(rs)); var k := Chosen(rs, confirms).value;
      (IsPreferred(y.slot.title) ==> IsPreferred(c[k].slot.title))
      && (IsPreferred(y.slot.title) == IsPreferred(c[k].slot.title) ==> y.start <= c[k].start)
  {
    var sorted := SortLatestFirst(rs);
    SortIsOrderedPermutation(rs);
    var c := Candidates(sorted);
    CandidatesArePermutation(sorted);
    CandidatesOrder(sorted);
    assert y in multiset(c);
    var j :| 0 <= j < |c| && c[j] == y;
    var k := FirstAccepted(c, confirms).value;
    assert k <= j;
    if k < j {
      assert IsPreferred(c[j].slot.title) ==> IsPreferred(c[k].slot.title);
      assert IsPreferred(c[k].slot.title) == IsPreferred(c[j].slot.title) ==> c[k].start >= c[j].start;
    }
  }
}
