/** The stages of the booking script and the pipeline that runs them. Each
    stage is a method on the shared browser session, proved to leave the
    session's event log equal to a pure trace function of what the site
    shows; the lemmas below state what those traces and results promise. */
module Reserve {
  import opened Text
  import opened Ranking
  import opened Driver

  /** What the booking site shows during one run. Each field stands for a
      page lookup of the original script: `true` where the element is found
      within its wait, `false` where the wait times out or the lookup fails. */
  datatype Site = Site(
    usernameField: bool,       // the username box on the login page
    passwordField: bool,       // the password box, looked up without a wait
    logoutLink: bool,          // the "Logout" link that marks a completed login
    grid: bool,                // the reservation grid
    tennisButton: bool,        // the "Tennis" filter button
    nextDay: nat -> bool,      // the next-day control, on the k-th click of the date loop
    openSlots: seq<Slot>,      // the open, titled slots on the grid, in page order
    saveButton: Slot -> bool)  // the "Save" button, after that slot was clicked

  /** How `reserve_court` ends: by returning a flag, or by letting the
      `ValueError` that `strptime` raises escape its `except` clause. */
  datatype Completion = Returned(value: bool) | RaisedValueError

  /** How the whole run ends, one value per message the script logs last. */
  datatype RunOutcome =
    | LoginFailed
    | NavigationFailed
    | AdvanceFailed
    | CourtReserved
    | ReservationFailed
    | Crashed

  /** How many days `main` moves ahead. */
  const DaysAhead: int := 7

  predicate NoQuit(t: seq<Event>) {
    forall i :: 0 <= i < |t| ==> t[i] != Event.Quit
  }

  /** The session is quit exactly once, as the last action. */
  predicate QuitOnceAtEnd(t: seq<Event>) {
    t != [] && t[|t| - 1] == Event.Quit && NoQuit(t[..|t| - 1])
  }

  lemma QuitOnceAfter(a: seq<Event>, t: seq<Event>)
    requires NoQuit(a) && QuitOnceAtEnd(t)
    ensures QuitOnceAtEnd(a + t)
  {
    assert (a + t)[..|a + t| - 1] == a + t[..|t| - 1];
  }

  // ---------------------------------------------------------------- login

  function LoginSucceeds(site: Site): bool {
    site.usernameField && site.passwordField && site.logoutLink
  }

  /** `login`: open the page, type the username once its box appears, type the
      password, submit, and wait for the "Logout" link; any miss quits. */
  function LoginTrace(site: Site): (t: seq<Event>)
    ensures LoginSucceeds(site) ==> NoQuit(t)
    ensures !LoginSucceeds(site) ==> QuitOnceAtEnd(t)
  {
    if !site.usernameField then [Open(LoginPage), Event.Quit]
    else if !site.passwordField then [Open(LoginPage), EnterUsername, Event.Quit]
    else if !site.logoutLink then [Open(LoginPage), EnterUsername, EnterPassword, SubmitLogin, Event.Quit]
    else [Open(LoginPage), EnterUsername, EnterPassword, SubmitLogin]
  }

  method Login(b: Browser, site: Site) returns (ok: bool)
    requires b.open
    modifies b
    ensures ok == LoginSucceeds(site) && b.open == ok
    ensures b.events == old(b.events) + LoginTrace(site)
  {
    b.Perform(Open(LoginPage));
    if !site.usernameField {
      b.Quit();
      return false;
    }
    b.Perform(EnterUsername);
    if !site.passwordField {
      b.Quit();
      return false;
    }
    b.Perform(EnterPassword);
    b.Perform(SubmitLogin);
    if !site.logoutLink {
      b.Quit();
      return false;
    }
    return true;
  }

  // ----------------------------------------------------------- navigation

  function NavigationSucceeds(site: Site): bool {
    site.grid && site.tennisButton
  }

  /** `navigate_to_reservations`: open the grid and click "Tennis"; a grid or
      button that does not appear quits. */
  function NavigationTrace(site: Site): (t: seq<Event>)
    ensures NavigationSucceeds(site) ==> NoQuit(t)
    ensures !NavigationSucceeds(site) ==> QuitOnceAtEnd(t)
  {
    if NavigationSucceeds(site) then [Open(ReservationsPage), ClickTennis]
    else [Open(ReservationsPage), Event.Quit]
  }

  method NavigateToReservations(b: Browser, site: Site) returns (ok: bool)
    requires b.open
    modifies b
    ensures ok == NavigationSucceeds(site) && b.open == ok
    ensures b.events == old(b.events) + NavigationTrace(site)
  {
    b.Perform(Open(ReservationsPage));
    if !site.grid || !site.tennisButton {
      b.Quit();
      return false;
    }
    b.Perform(ClickTennis);
    return true;
  }

  // --------------------------------------------------------- date advance

  /** How many times `range(days)` runs. */
  function Iterations(days: int): nat {
    if days > 0 then days else 0
  }

  /** The first of the iterations `from` .. `limit - 1` whose next-day control
      is missing, or `limit` when none is. */
  function FirstMissing(found: nat -> bool, from: nat, limit: nat): (n: nat)
    requires from <= limit
    ensures from <= n <= limit
    ensures forall k :: from <= k < n ==> found(k)
    ensures n < limit ==> !found(n)
    decreases limit - from
  {
    if from == limit || !found(from) then from else FirstMissing(found, from + 1, limit)
  }

  /** How many next-day clicks `move_days_ahead(days)` makes. */
  function DaysAdvanced(days: int, found: nat -> bool): nat {
    FirstMissing(found, 0, Iterations(days))
  }

  function NextDayClicks(n: nat): (t: seq<Event>)
    ensures |t| == n && forall i :: 0 <= i < n ==> t[i] == ClickNextDay
  {
    if n == 0 then [] else NextDayClicks(n - 1) + [ClickNextDay]
  }

  function AdvanceSucceeds(days: int, found: nat -> bool): bool {
    DaysAdvanced(days, found) == Iterations(days)
  }

  /** `move_days_ahead(days)`: a click per iteration until a control is
      missing, which quits; clicks already made are not undone. */
  function AdvanceTrace(days: int, found: nat -> bool): seq<Event> {
    NextDayClicks(DaysAdvanced(days, found))
    + if AdvanceSucceeds(days, found) then [] else [Event.Quit]
  }

  /** The date loop succeeds exactly when the control is found on every
      iteration; it then makes exactly `days` clicks, and on a miss at
      iteration `k` it has made exactly `k`. */
  lemma AdvanceOutcome(days: int, found: nat -> bool)
    ensures AdvanceSucceeds(days, found) <==> forall k :: 0 <= k < days ==> found(k)
    ensures AdvanceSucceeds(days, found) ==> AdvanceTrace(days, found) == NextDayClicks(Iterations(days))
    ensures !AdvanceSucceeds(days, found) ==>
      var k := DaysAdvanced(days, found);
      k < days && !found(k) && AdvanceTrace(days, found) == NextDayClicks(k) + [Event.Quit]
    ensures AdvanceSucceeds(days, found) ==> NoQuit(AdvanceTrace(days, found))
    ensures !AdvanceSucceeds(days, found) ==> QuitOnceAtEnd(AdvanceTrace(days, found))
    ensures days <= 0 ==> AdvanceSucceeds(days, found) && AdvanceTrace(days, found) == []
  {
    var t := AdvanceTrace(days, found);
    if !AdvanceSucceeds(days, found) {
      assert t[..|t| - 1] == NextDayClicks(DaysAdvanced(days, found));
    }
  }

  method MoveDaysAhead(b: Browser, days: int, found: nat -> bool) returns (ok: bool)
    requires b.open
    modifies b
    ensures ok == AdvanceSucceeds(days, found) && b.open == ok
    ensures b.events == old(b.events) + AdvanceTrace(days, found)
  {
    var k := 0;
    while k < days
      invariant 0 <= k <= Iterations(days)
      invariant forall j :: 0 <= j < k ==> found(j)
      invariant b.open && b.events == old(b.events) + NextDayClicks(k)
    {
      if !found(k) {
        b.Quit();
        return false;
      }
      b.Perform(ClickNextDay);
      k := k + 1;
    }
    return true;
  }

  // ------------------------------------------------------------ reserving

  /** Trying candidates in order: click each, and stop after the first whose
      "Save" button appears and is clicked. */
  function AttemptTrace(c: seq<Ranked>, confirms: Slot -> bool): seq<Event> {
    if c == [] then []
    else if confirms(c[0].slot) then [ClickSlot(c[0].slot), ClickSave(c[0].slot)]
    else [ClickSlot(c[0].slot)] + AttemptTrace(c[1..], confirms)
  }

  /** Trying slots never quits the session. */
  lemma {:induction false} AttemptTraceNoQuit(c: seq<Ranked>, confirms: Slot -> bool)
    ensures NoQuit(AttemptTrace(c, confirms))
  {
    if c != [] && !confirms(c[0].slot) {
      AttemptTraceNoQuit(c[1..], confirms);
      NoQuitJoin([ClickSlot(c[0].slot)], AttemptTrace(c[1..], confirms));
    }
  }

  function SlotClicks(c: seq<Ranked>): (t: seq<Event>)
    ensures |t| == |c| && forall i :: 0 <= i < |c| ==> t[i] == ClickSlot(c[i].slot)
  {
    if c == [] then [] else [ClickSlot(c[0].slot)] + SlotClicks(c[1..])
  }

  /** The slots clicked are the candidates up to and including the first that
      confirms, and only that one is saved; with none confirming, every
      candidate is clicked once and nothing is saved. */
  lemma {:induction false} AttemptTraceShape(c: seq<Ranked>, confirms: Slot -> bool)
    ensures match FirstAccepted(c, confirms)
      case Some(k) => AttemptTrace(c, confirms) == SlotClicks(c[..k + 1]) + [ClickSave(c[k].slot)]
      case None => AttemptTrace(c, confirms) == SlotClicks(c)
  {
    if c != [] && !confirms(c[0].slot) {
      AttemptTraceShape(c[1..], confirms);
      var click := [ClickSlot(c[0].slot)];
      match FirstAccepted(c[1..], confirms)
      case Some(k) =>
        assert c[..k + 2] == [c[0]] + c[1..][..k + 1];
        assert SlotClicks(c[..k + 2]) == click + SlotClicks(c[1..][..k + 1]);
        Assoc(click, SlotClicks(c[1..][..k + 1]), [ClickSave(c[k + 1].slot)]);
      case None =>
    }
    if c != [] && confirms(c[0].slot) {
      assert SlotClicks(c[..1]) == [ClickSlot(c[0].slot)];
    }
  }

  lemma {:induction false} AttemptTraceAppend(a: seq<Ranked>, rest: seq<Ranked>, confirms: Slot -> bool)
    requires FirstAccepted(a, confirms).None?
    ensures AttemptTrace(a + rest, confirms) == AttemptTrace(a, confirms) + AttemptTrace(rest, confirms)
    ensures FirstAccepted(a + rest, confirms) ==
      match FirstAccepted(rest, confirms)
      case None => None
      case Some(k) => Some(|a| + k)
  {
    if a != [] {
      assert (a + rest)[1..] == a[1..] + rest;
      AttemptTraceAppend(a[1..], rest, confirms);
    } else {
      assert a + rest == rest;
    }
  }

  lemma {:induction false} PassAppend(a: seq<Ranked>, rest: seq<Ranked>, preferred: bool)
    ensures Pass(a + rest, preferred) == Pass(a, preferred) + Pass(rest, preferred)
  {
    if a != [] {
      assert (a + rest)[1..] == a[1..] + rest;
      PassAppend(a[1..], rest, preferred);
    } else {
      assert a + rest == rest;
    }
  }

  /** One more entry of a pass's loop. */
  lemma PassStep(s: seq<Ranked>, i: nat, preferred: bool)
    requires i < |s|
    ensures Pass(s[..i + 1], preferred)
      == Pass(s[..i], preferred) + (if IsPreferred(s[i].slot.title) == preferred then [s[i]] else [])
  {
    assert s[..i + 1] == s[..i] + [s[i]];
    PassAppend(s[..i], [s[i]], preferred);
  }

  /** The slots `reserve_court` tries, in the order it tries them: none when
      a title does not parse. */
  function ReserveCandidates(slots: seq<Slot>): seq<Ranked> {
    match RankAll(slots)
    case None => []
    case Some(rs) => Candidates(SortLatestFirst(rs))
  }

  /** The attempts of `reserve_court`, in candidate order. */
  function ReserveAttempts(slots: seq<Slot>, confirms: Slot -> bool): seq<Event> {
    AttemptTrace(ReserveCandidates(slots), confirms)
  }

  /** The whole of `reserve_court`'s actions: its attempts, then the quit of
      the `finally` clause. */
  function ReserveTrace(slots: seq<Slot>, confirms: Slot -> bool): seq<Event> {
    ReserveAttempts(slots, confirms) + [Event.Quit]
  }

  /** The reservation stage quits once, at its end, on every path. */
  lemma ReserveQuitsOnceAtEnd(slots: seq<Slot>, confirms: Slot -> bool)
    ensures QuitOnceAtEnd(ReserveTrace(slots, confirms))
  {
    var t := ReserveTrace(slots, confirms);
    AttemptTraceNoQuit(ReserveCandidates(slots), confirms);
    assert t[..|t| - 1] == ReserveAttempts(slots, confirms);
  }

  function ReserveResult(slots: seq<Slot>, confirms: Slot -> bool): Completion {
    if RankAll(slots).None? then RaisedValueError
    else Returned(FirstAccepted(ReserveCandidates(slots), confirms).Some?)
  }

  /** A pass's loop meets an entry that it skips or whose confirmation fails. */
  lemma StepMiss(sorted: seq<Ranked>, i: nat, preferred: bool, confirms: Slot -> bool)
    requires i < |sorted|
    requires FirstAccepted(Pass(sorted[..i], preferred), confirms).None?
    requires IsPreferred(sorted[i].slot.title) == preferred ==> !confirms(sorted[i].slot)
    ensures FirstAccepted(Pass(sorted[..i + 1], preferred), confirms).None?
    ensures AttemptTrace(Pass(sorted[..i + 1], preferred), confirms)
      == AttemptTrace(Pass(sorted[..i], preferred), confirms)
         + (if IsPreferred(sorted[i].slot.title) == preferred then [ClickSlot(sorted[i].slot)] else [])
  {
    var step := if IsPreferred(sorted[i].slot.title) == preferred then [sorted[i]] else [];
    PassStep(sorted, i, preferred);
    AttemptTraceAppend(Pass(sorted[..i], preferred), step, confirms);
    if step != [] {
      assert step[1..] == [];
    }
  }

  /** A pass's loop meets an entry that it tries and whose confirmation
      succeeds: the pass's attempts stop there. */
  lemma StepHit(sorted: seq<Ranked>, i: nat, preferred: bool, confirms: Slot -> bool)
    requires i < |sorted|
    requires FirstAccepted(Pass(sorted[..i], preferred), confirms).None?
    requires IsPreferred(sorted[i].slot.title) == preferred && confirms(sorted[i].slot)
    ensures FirstAccepted(Pass(sorted, preferred), confirms).Some?
    ensures AttemptTrace(Pass(sorted, preferred), confirms)
      == AttemptTrace(Pass(sorted[..i], preferred), confirms)
         + [ClickSlot(sorted[i].slot), ClickSave(sorted[i].slot)]
  {
    var p0, p1 := Pass(sorted[..i], preferred), Pass(sorted[i + 1..], preferred);
    PassStep(sorted, i, preferred);
    assert sorted == sorted[..i + 1] + sorted[i + 1..];
    PassAppend(sorted[..i + 1], sorted[i + 1..], preferred);
    assert Pass(sorted, preferred) == p0 + ([sorted[i]] + p1);
    AttemptTraceAppend(p0, [sorted[i]] + p1, confirms);
  }

  /** Trying `a` and then `rest`: the attempts stop inside `a` when some
      entry of `a` confirms, and otherwise go on into `rest`. */
  lemma AttemptTraceJoin(a: seq<Ranked>, rest: seq<Ranked>, confirms: Slot -> bool)
    ensures FirstAccepted(a, confirms).Some? ==>
      AttemptTrace(a + rest, confirms) == AttemptTrace(a, confirms)
      && FirstAccepted(a + rest, confirms).Some?
    ensures FirstAccepted(a, confirms).None? ==>
      AttemptTrace(a + rest, confirms) == AttemptTrace(a, confirms) + AttemptTrace(rest, confirms)
      && FirstAccepted(a + rest, confirms).Some? == FirstAccepted(rest, confirms).Some?
  {
    if FirstAccepted(a, confirms).None? {
      AttemptTraceAppend(a, rest, confirms);
    } else {
      AttemptPrefixHit(a, rest, confirms);
    }
  }

  lemma {:induction false} AttemptPrefixHit(a: seq<Ranked>, rest: seq<Ranked>, confirms: Slot -> bool)
    requires FirstAccepted(a, confirms).Some?
    ensures AttemptTrace(a + rest, confirms) == AttemptTrace(a, confirms)
    ensures FirstAccepted(a + rest, confirms).Some?
  {
    assert (a + rest)[0] == a[0];
    if !confirms(a[0].slot) {
      assert (a + rest)[1..] == a[1..] + rest;
      AttemptPrefixHit(a[1..], rest, confirms);
    }
  }

  /** One pass of `reserve_court` over the sorted slots: click each slot the
      pass admits, latest first, until one's "Save" button appears and is
      clicked. */
  method TryPass(b: Browser, sorted: seq<Ranked>, preferred: bool, confirms: Slot -> bool)
    returns (hit: bool)
    requires b.open
    modifies b
    ensures hit == FirstAccepted(Pass(sorted, preferred), confirms).Some? && b.open
    ensures b.events == old(b.events) + AttemptTrace(Pass(sorted, preferred), confirms)
  {
    assert sorted[..0] == [];
    var i := 0;
    while i < |sorted|
      invariant 0 <= i <= |sorted|
      invariant b.open
      invariant FirstAccepted(Pass(sorted[..i], preferred), confirms).None?
      invariant b.events == old(b.events) + AttemptTrace(Pass(sorted[..i], preferred), confirms)
    {
      var entry := sorted[i];
      ghost var start, tried := old(b.events), AttemptTrace(Pass(sorted[..i], preferred), confirms);
      var admitted := if preferred then IsPreferred(entry.slot.title) else IsFallback(entry.slot.title);
      if admitted {
        b.Perform(ClickSlot(entry.slot));
        Assoc(start, tried, [ClickSlot(entry.slot)]);
        if confirms(entry.slot) {
          b.Perform(ClickSave(entry.slot));
          Assoc(start, tried + [ClickSlot(entry.slot)], [ClickSave(entry.slot)]);
          Assoc(tried, [ClickSlot(entry.slot)], [ClickSave(entry.slot)]);
          StepHit(sorted, i, preferred, confirms);
          return true;
        }
      }
      StepMiss(sorted, i, preferred, confirms);
      i := i + 1;
    }
    assert sorted[..i] == sorted;
    return false;
  }

  /** What `reserve_court` does once every title has parsed and the slots
      are sorted: the fallback pass runs only when the preferred pass booked
      nothing, and the session is quit after both. */
  lemma ReservePlan(slots: seq<Slot>, confirms: Slot -> bool, sorted: seq<Ranked>,
                    hit: bool, attempts: seq<Event>)
    requires RankAll(slots).Some? && sorted == SortLatestFirst(RankAll(slots).value)
    requires hit == (FirstAccepted(Pass(sorted, true), confirms).Some?
                     || FirstAccepted(Pass(sorted, false), confirms).Some?)
    requires attempts == AttemptTrace(Pass(sorted, true), confirms)
      + (if FirstAccepted(Pass(sorted, true), confirms).Some? then [] else AttemptTrace(Pass(sorted, false), confirms))
    ensures ReserveTrace(slots, confirms) == attempts + [Event.Quit]
    ensures ReserveResult(slots, confirms) == Returned(hit)
  {
    var first, second := Pass(sorted, true), Pass(sorted, false);
    assert ReserveCandidates(slots) == first + second;
    AttemptTraceJoin(first, second, confirms);
  }

  /** `reserve_court`: rank the open slots, try the preferred pass and then
      the fallback pass, and quit the session whatever happens. */
  method ReserveCourt(b: Browser, site: Site) returns (c: Completion)
    requires b.open
    modifies b
    ensures c == ReserveResult(site.openSlots, site.saveButton) && !b.open
    ensures b.events == old(b.events) + ReserveTrace(site.openSlots, site.saveButton)
  {
    var confirms := site.saveButton;
    var ranked := RankAll(site.openSlots);
    if ranked.None? {
      b.Quit();
      return RaisedValueError;
    }
    var sorted := SortLatestFirst(ranked.value);
    ghost var start := b.events;
    var hit := TryPass(b, sorted, true, confirms);
    ghost var attempts := AttemptTrace(Pass(sorted, true), confirms);
    if !hit {
      ghost var second := AttemptTrace(Pass(sorted, false), confirms);
      hit := TryPass(b, sorted, false, confirms);
      Assoc(start, attempts, second);
      attempts := attempts + second;
    }
    b.Quit();
    Assoc(start, attempts, [Event.Quit]);
    ReservePlan(site.openSlots, confirms, sorted, hit, attempts);
    return Returned(hit);
  }

  /** `reserve_court` returns True exactly when every title parses and some
      open slot's "Save" button appears; with no open slots it returns False. */
  lemma ReserveTrueIff(slots: seq<Slot>, confirms: Slot -> bool)
    ensures ReserveResult(slots, confirms) == Returned(true) <==>
      (forall i :: 0 <= i < |slots| ==> StartKey(slots[i]).Some?)
      && exists i :: 0 <= i < |slots| && confirms(slots[i])
    ensures slots == [] ==> ReserveResult(slots, confirms) == Returned(false)
    ensures ReserveResult(slots, confirms) == RaisedValueError <==>
      exists i :: 0 <= i < |slots| && StartKey(slots[i]).None?
    ensures ReserveResult(slots, confirms) == Returned(false) <==>
      (forall i :: 0 <= i < |slots| ==> StartKey(slots[i]).Some?)
      && forall i :: 0 <= i < |slots| ==> !confirms(slots[i])
  {
    RankAllSpec(slots);
    if RankAll(slots).Some? {
      ReserveBooksIff(slots, confirms);
    }
  }

  /** Once every title has parsed, the stage returns whether some open slot's
      "Save" button appears. */
  lemma ReserveBooksIff(slots: seq<Slot>, confirms: Slot -> bool)
    requires RankAll(slots).Some?
    ensures ReserveResult(slots, confirms)
      == Returned(exists i :: 0 <= i < |slots| && confirms(slots[i]))
  {
    var rs := RankAll(slots).value;
    RankAllSpec(slots);
    ChosenIffSomeConfirms(rs, confirms);
    SameSlotsSameConfirms(rs, slots, confirms);
  }

  lemma SameSlotsSameConfirms(rs: seq<Ranked>, slots: seq<Slot>, confirms: Slot -> bool)
    requires |rs| == |slots| && forall i :: 0 <= i < |rs| ==> rs[i].slot == slots[i]
    ensures (exists i :: 0 <= i < |rs| && confirms(rs[i].slot))
        <==> exists i :: 0 <= i < |slots| && confirms(slots[i])
  {
    if exists i :: 0 <= i < |slots| && confirms(slots[i]) {
      var i :| 0 <= i < |slots| && confirms(slots[i]);
      assert rs[i].slot == slots[i];
    }
  }

  /** A title that does not parse means no slot is clicked and the stage does
      not return at all: the error escapes after the session is quit. */
  lemma UnparsableTitleClicksNothing(slots: seq<Slot>, confirms: Slot -> bool, i: nat)
    requires i < |slots| && StartKey(slots[i]).None?
    ensures ReserveResult(slots, confirms) == RaisedValueError
    ensures ReserveTrace(slots, confirms) == [Event.Quit]
  {
    RankAllSpec(slots);
  }

  /** When the stage books a slot, the slots it clicked are exactly the
      candidates before it and the slot itself, and the only slot saved is the
      first candidate whose "Save" button appears. */
  lemma ReservedSlotIsFirstConfirmed(slots: seq<Slot>, confirms: Slot -> bool)
    requires ReserveResult(slots, confirms) == Returned(true)
    ensures var c := ReserveCandidates(slots);
      var k := FirstAccepted(c, confirms).value;
      ReserveTrace(slots, confirms) == SlotClicks(c[..k + 1]) + [ClickSave(c[k].slot), Event.Quit]
  {
    AttemptTraceShape(ReserveCandidates(slots), confirms);
  }

  /** When the stage books nothing, every candidate was clicked exactly once. */
  lemma UnreservedClicksEveryCandidate(slots: seq<Slot>, confirms: Slot -> bool)
    requires ReserveResult(slots, confirms) == Returned(false)
    ensures ReserveTrace(slots, confirms) == SlotClicks(ReserveCandidates(slots)) + [Event.Quit]
  {
    AttemptTraceShape(ReserveCandidates(slots), confirms);
  }

  // ------------------------------------------------------------- pipeline

  /** `main`: each stage only after the previous one returned True. */
  function RunTrace(site: Site): seq<Event> {
    var login, nav := LoginTrace(site), NavigationTrace(site);
    var advance := AdvanceTrace(DaysAhead, site.nextDay);
    if !LoginSucceeds(site) then login
    else if !NavigationSucceeds(site) then login + nav
    else if !AdvanceSucceeds(DaysAhead, site.nextDay) then login + nav + advance
    else login + nav + advance + ReserveTrace(site.openSlots, site.saveButton)
  }

  function Outcome(site: Site): RunOutcome {
    if !LoginSucceeds(site) then LoginFailed
    else if !NavigationSucceeds(site) then NavigationFailed
    else if !AdvanceSucceeds(DaysAhead, site.nextDay) then AdvanceFailed
    else
      match ReserveResult(site.openSlots, site.saveButton)
      case Returned(true) => CourtReserved
      case Returned(false) => ReservationFailed
      case RaisedValueError => Crashed
  }

  method RunBot(b: Browser, site: Site) returns (outcome: RunOutcome)
    requires b.open
    modifies b
    ensures outcome == Outcome(site) && !b.open
    ensures b.events == old(b.events) + RunTrace(site)
  {
    ghost var start := b.events;
    ghost var login, nav := LoginTrace(site), NavigationTrace(site);
    ghost var advance := AdvanceTrace(DaysAhead, site.nextDay);
    var ok := Login(b, site);
    if !ok {
      return LoginFailed;
    }
    ok := NavigateToReservations(b, site);
    Assoc(start, login, nav);
    if !ok {
      return NavigationFailed;
    }
    ok := MoveDaysAhead(b, DaysAhead, site.nextDay);
    Assoc(start, login + nav, advance);
    if !ok {
      return AdvanceFailed;
    }
    var c := ReserveCourt(b, site);
    Assoc(start, login + nav + advance, ReserveTrace(site.openSlots, site.saveButton));
    match c
    case Returned(true) => outcome := CourtReserved;
    case Returned(false) => outcome := ReservationFailed;
    case RaisedValueError => outcome := Crashed;
  }

  lemma NoQuitJoin(a: seq<Event>, t: seq<Event>)
    requires NoQuit(a) && NoQuit(t)
    ensures NoQuit(a + t)
  {
    assert forall i :: |a| <= i < |a + t| ==> (a + t)[i] == t[i - |a|];
  }

  /** On every path through `main` the session is quit exactly once, and as
      the last thing the run does. */
  lemma RunQuitsOnceAtEnd(site: Site)
    ensures QuitOnceAtEnd(RunTrace(site))
  {
    var login, nav := LoginTrace(site), NavigationTrace(site);
    var advance := AdvanceTrace(DaysAhead, site.nextDay);
    AdvanceOutcome(DaysAhead, site.nextDay);
    if LoginSucceeds(site) && NavigationSucceeds(site) {
      NoQuitJoin(login, nav);
      if AdvanceSucceeds(DaysAhead, site.nextDay) {
        NoQuitJoin(login + nav, advance);
        ReserveQuitsOnceAtEnd(site.openSlots, site.saveButton);
        QuitOnceAfter(login + nav + advance, ReserveTrace(site.openSlots, site.saveButton));
      } else {
        QuitOnceAfter(login + nav, advance);
      }
    } else if LoginSucceeds(site) {
      QuitOnceAfter(login, nav);
    }
  }

  /** A court is booked exactly when login and navigation succeed, the
      next-day control is found on all seven clicks, every title parses, and
      some open slot's "Save" button appears. */
  lemma RunReservesIff(site: Site)
    ensures Outcome(site) == CourtReserved <==>
      LoginSucceeds(site) && NavigationSucceeds(site)
      && (forall k :: 0 <= k < DaysAhead ==> site.nextDay(k))
      && (forall i :: 0 <= i < |site.openSlots| ==> StartKey(site.openSlots[i]).Some?)
      && exists i :: 0 <= i < |site.openSlots| && site.saveButton(site.openSlots[i])
  {
    AdvanceOutcome(DaysAhead, site.nextDay);
    ReserveTrueIff(site.openSlots, site.saveButton);
  }

  /** The reservation stage runs only after the three earlier stages have all
      succeeded, and the date loop is asked for exactly seven days. */
  lemma StagesRunInOrder(site: Site)
    ensures Outcome(site) in {CourtReserved, ReservationFailed, Crashed} <==>
      LoginSucceeds(site) && NavigationSucceeds(site) && AdvanceSucceeds(DaysAhead, site.nextDay)
    ensures LoginSucceeds(site) && NavigationSucceeds(site) ==>
      RunTrace(site)[|LoginTrace(site)| + |NavigationTrace(site)|..][..DaysAdvanced(DaysAhead, site.nextDay)]
        == NextDayClicks(DaysAdvanced(DaysAhead, site.nextDay))
  {
  }
}
