/** The browser session that every stage of the script drives. The remote
    site is not modelled here; the session only records, in order, what the
    script does through it, and whether it has been quit. */
module Driver {
  import opened Ranking

  datatype Page = LoginPage | ReservationsPage

  /** One action of the script on the browser. */
  datatype Event =
    | Open(page: Page)
    | EnterUsername
    | EnterPassword
    | SubmitLogin
    | ClickTennis
    | ClickNextDay
    | ClickSlot(slot: Slot)
    | ClickSave(slot: Slot)
    | Quit

  /** The single WebDriver session of a run. */
  class Browser {
    var events: seq<Event>
    var open: bool

    constructor ()
      ensures events == [] && open
    {
      events := [];
      open := true;
    }

    /** Any page action: only possible while the session is open. */
    method Perform(e: Event)
      requires open && e != Event.Quit
      modifies this
      ensures events == old(events) + [e] && open
    {
      events := events + [e];
    }

    /** `driver.quit()`: ends the session. */
    method Quit()
      requires open
      modifies this
      ensures events == old(events) + [Event.Quit] && !open
    {
      events := events + [Event.Quit];
      open := false;
    }
  }
}
