/**
 * The author header's local state (`MessageWithSigil`): the name label shows
 * the resolved ship name, and after a click on it the notice "Copied" in a
 * proportional font until an 800 ms timer puts the name back; a click on the
 * avatar opens or closes the profile overlay.
 *
 * The timer is an effect keyed on `displayName`: it is scheduled after the
 * first render and again after every render in which `displayName` changed,
 * each time cancelling the one before. Time itself is not modelled: a
 * pending timer is a flag, and its expiry is the event `TimerFire`.
 */
module NameLabel {

  /** The notice shown after the name was copied. */
  const CopyNotice: string := "Copied"

  /** What can happen to a header: a click on the name or on the avatar, or the timer expiring. */
  datatype Event = ClickName | ClickAvatar | TimerFire

  /**
   * The header's state cells: the label text, whether it is set in the
   * monospace font, whether the overlay is open, and whether a revert timer
   * is pending.
   */
  datatype LabelState = LabelState(displayName: string, nameMono: bool, showOverlay: bool, timerArmed: bool)

  /**
   * `shipName`: the contact's nickname when the nickname is to be shown,
   * otherwise the shortened ship name `cite(author)`.
   */
  function ShipName(showNickname: bool, nickname: string, author: string, cite: string -> string): string
  {
    if showNickname then nickname else cite(author)
  }

  /** The label at rest: the ship name, monospace unless it is a nickname. */
  predicate Normal(s: LabelState, shipName: string, showNickname: bool)
  {
    s.displayName == shipName && s.nameMono == !showNickname
  }

  /** The label after a click: the copy notice, not monospace. */
  predicate Copied(s: LabelState)
  {
    s.displayName == CopyNotice && !s.nameMono
  }

  /**
   * The header's invariant: the label is at rest or shows the notice, and
   * whenever it shows something other than the ship name a timer is pending.
   */
  predicate Consistent(s: LabelState, shipName: string, showNickname: bool)
  {
    (Normal(s, shipName, showNickname) || Copied(s)) &&
    (s.displayName != shipName ==> s.timerArmed)
  }

  /** The state after the first render: the resolved name, overlay closed, the effect's first timer pending. */
  function Initial(shipName: string, showNickname: bool): (s: LabelState)
    ensures Normal(s, shipName, showNickname) && !s.showOverlay && s.timerArmed
  {
    LabelState(shipName, !showNickname, false, true)
  }

  /**
   * One event. A click on the name sets the notice; the timer is restarted
   * only if that changed `displayName`. A firing timer restores the name and
   * schedules another one only if that changed `displayName`; with no timer
   * pending nothing fires. A click on the avatar toggles the overlay.
   */
  function Step(s: LabelState, e: Event, shipName: string, showNickname: bool): LabelState
  {
    match e
    case ClickName =>
      LabelState(CopyNotice, false, s.showOverlay, s.timerArmed || s.displayName != CopyNotice)
    case ClickAvatar =>
      s.(showOverlay := !s.showOverlay)
    case TimerFire =>
      if s.timerArmed then LabelState(shipName, !showNickname, s.showOverlay, s.displayName != shipName)
      else s
  }

  /** The state after the events `events`, starting from the first render. */
  function Run(events: seq<Event>, shipName: string, showNickname: bool): LabelState
  {
    if events == [] then Initial(shipName, showNickname)
    else Step(Run(events[..|events| - 1], shipName, showNickname), events[|events| - 1], shipName, showNickname)
  }

  /** Every event keeps the invariant. */
  lemma StepConsistent(s: LabelState, e: Event, shipName: string, showNickname: bool)
    requires Consistent(s, shipName, showNickname)
    ensures Consistent(Step(s, e, shipName, showNickname), shipName, showNickname)
  {
  }

  /** Every state the header can reach satisfies the invariant. */
  lemma {:induction false} RunConsistent(events: seq<Event>, shipName: string, showNickname: bool)
    ensures Consistent(Run(events, shipName, showNickname), shipName, showNickname)
  {
    if events != [] {
      var prefix := events[..|events| - 1];
      RunConsistent(prefix, shipName, showNickname);
      StepConsistent(Run(prefix, shipName, showNickname), events[|events| - 1], shipName, showNickname);
    }
  }

  /**
   * A click on the name shows the notice, leaves the overlay alone, and
   * leaves a timer pending that will revert it (when the notice differs from
   * the ship name).
   */
  lemma ClickNameShowsNotice(s: LabelState, shipName: string, showNickname: bool)
    requires Consistent(s, shipName, showNickname)
    ensures var t := Step(s, ClickName, shipName, showNickname);
      Copied(t) && t.showOverlay == s.showOverlay && (shipName != CopyNotice ==> t.timerArmed)
  {
  }

  /**
   * A second click on the name changes nothing, not even the pending timer:
   * the notice does not change `displayName`, so the timer is not restarted
   * and the name comes back 800 ms after the first click.
   */
  lemma ClickNameIdempotent(s: LabelState, shipName: string, showNickname: bool)
    ensures var t := Step(s, ClickName, shipName, showNickname);
      Step(t, ClickName, shipName, showNickname) == t
  {
  }

  /** A firing timer puts the label at rest from every reachable state. */
  lemma TimerFireRestores(s: LabelState, shipName: string, showNickname: bool)
    requires Consistent(s, shipName, showNickname)
    requires shipName != CopyNotice || showNickname
    ensures Normal(Step(s, TimerFire, shipName, showNickname), shipName, showNickname)
    ensures Step(s, TimerFire, shipName, showNickname).showOverlay == s.showOverlay
  {
  }

  /** A second firing changes nothing about the label or the overlay. */
  lemma TimerFireIdempotent(s: LabelState, shipName: string, showNickname: bool)
    ensures var t := Step(s, TimerFire, shipName, showNickname);
      var u := Step(t, TimerFire, shipName, showNickname);
      u.displayName == t.displayName && u.nameMono == t.nameMono && u.showOverlay == t.showOverlay
  {
  }

  /** A click on the avatar flips the overlay and nothing else; two clicks close it again. */
  lemma ClickAvatarTogglesOverlay(s: LabelState, shipName: string, showNickname: bool)
    ensures var t := Step(s, ClickAvatar, shipName, showNickname);
      t.showOverlay == !s.showOverlay && t.displayName == s.displayName &&
      t.nameMono == s.nameMono && t.timerArmed == s.timerArmed &&
      Step(t, ClickAvatar, shipName, showNickname) == s
  {
  }

  /**
   * Whatever happened before, once the timer has fired the label shows the
   * ship name again (unless the ship name is itself the notice set in
   * monospace, which a shortened ship name never is).
   */
  lemma {:induction false} NoticeAlwaysReverts(events: seq<Event>, shipName: string, showNickname: bool)
    requires shipName != CopyNotice || showNickname
    ensures Normal(Run(events + [TimerFire], shipName, showNickname), shipName, showNickname)
  {
    var all := events + [TimerFire];
    assert all[..|all| - 1] == events;
    RunConsistent(events, shipName, showNickname);
    TimerFireRestores(Run(events, shipName, showNickname), shipName, showNickname);
  }

  /** One header's state cells, updated in place by its event handlers. */
  class AuthorLabel {
    const author: string
    const shipName: string
    const showNickname: bool
    var displayName: string
    var nameMono: bool
    var showOverlay: bool
    var timerArmed: bool
    /** The events handled so far. */
    ghost var events: seq<Event>

    /** The state cells as a value. */
    function State(): LabelState
      reads this
    {
      LabelState(displayName, nameMono, showOverlay, timerArmed)
    }

    /** The cells hold the state the recorded events lead to. */
    ghost predicate Valid()
      reads this
    {
      State() == Run(events, shipName, showNickname)
    }

    /** The first render of the header for a post by `author`. */
    constructor (author: string, showNickname: bool, nickname: string, cite: string -> string)
      ensures Valid() && events == []
      ensures this.author == author && this.showNickname == showNickname
      ensures shipName == ShipName(showNickname, nickname, author, cite)
      ensures State() == Initial(shipName, showNickname)
    {
      this.author := author;
      this.showNickname := showNickname;
      shipName := ShipName(showNickname, nickname, author, cite);
      displayName := ShipName(showNickname, nickname, author, cite);
      nameMono := !showNickname;
      showOverlay := false;
      timerArmed := true;
      events := [];
    }

    /** `Step` applied to the recorded events extended by `e`. */
    static lemma RunAppend(events: seq<Event>, e: Event, shipName: string, showNickname: bool)
      ensures Run(events + [e], shipName, showNickname) == Step(Run(events, shipName, showNickname), e, shipName, showNickname)
    {
      assert (events + [e])[..|events + [e]| - 1] == events;
    }

    /**
     * The name's click handler: copy `~author` to the clipboard (returned
     * here) and show the notice.
     */
    method ClickName() returns (clipboard: string)
      requires Valid()
      modifies this
      ensures Valid() && events == old(events) + [Event.ClickName]
      ensures State() == Step(old(State()), Event.ClickName, shipName, showNickname)
      ensures clipboard == "~" + author
    {
      clipboard := "~" + author;
      var changed := displayName != CopyNotice;
      displayName := CopyNotice;
      nameMono := false;
      if changed {
        // the effect on displayName cancels the pending timer and schedules a new one
        timerArmed := true;
      }
      RunAppend(events, Event.ClickName, shipName, showNickname);
      events := events + [Event.ClickName];
    }

    /** The avatar's click handler. */
    method ClickAvatar()
      requires Valid()
      modifies this
      ensures Valid() && events == old(events) + [Event.ClickAvatar]
      ensures State() == Step(old(State()), Event.ClickAvatar, shipName, showNickname)
    {
      showOverlay := !showOverlay;
      RunAppend(events, Event.ClickAvatar, shipName, showNickname);
      events := events + [Event.ClickAvatar];
    }

    /** The pending timer, if any, expires and resets the label. */
    method TimerFire()
      requires Valid()
      modifies this
      ensures Valid() && events == old(events) + [Event.TimerFire]
      ensures State() == Step(old(State()), Event.TimerFire, shipName, showNickname)
      ensures shipName != CopyNotice || showNickname ==> Normal(State(), shipName, showNickname)
    {
      if timerArmed {
        var changed := displayName != shipName;
        displayName := shipName;
        nameMono := !showNickname;
        // a changed displayName re-runs the effect, which schedules a fresh timer
        timerArmed := changed;
      }
      RunAppend(events, Event.TimerFire, shipName, showNickname);
      RunConsistent(events, shipName, showNickname);
      events := events + [Event.TimerFire];
    }
  }
}
