/**
 * The exit-intent gate: the condition under which a `mouseleave` on the
 * document shows the "Before you go..." popup.
 */
module ExitIntent {
  import opened Js

  /** The pointer must leave less than this many pixels below the top edge. */
  const TopMargin: real := 10.0
  /** Milliseconds that must have passed since the dwell timestamp. */
  const Delay: int := 5000
  /** Milliseconds after start-up at which the dwell timestamp is taken. */
  const DwellTimerDelay: int := 100
  /** A path containing this text is the contact page, where the popup never shows. */
  const ContactPathPart: string := "contact"

  /**
   * A leave at height `clientY` and time `now` shows the popup: the pointer
   * left near the top, the popup was not shown on this page nor earlier in the
   * session, the dwell timestamp is set and more than `Delay` ms old, and the
   * page is not the contact page.
   */
  predicate ShouldShow(clientY: real, shownOnPage: bool, timeOnSite: int, now: int,
                       path: string, shownInSession: bool)
    ensures ShouldShow(clientY, shownOnPage, timeOnSite, now, path, shownInSession)
            ==> timeOnSite != 0 && now > timeOnSite + Delay
    ensures ShouldShow(clientY, shownOnPage, timeOnSite, now, path, shownInSession)
            ==> forall i :: !OccursAt(path, ContactPathPart, i)
  {
    clientY < TopMargin && !shownOnPage && timeOnSite != 0 && now - timeOnSite > Delay
    && !Includes(path, ContactPathPart) && !shownInSession
  }

  /** On any path that contains "contact" (such as "/contact.html") the popup never shows. */
  lemma ContactPageExcluded(before: string, after: string, clientY: real, shownOnPage: bool,
                            timeOnSite: int, now: int, shownInSession: bool)
    ensures !ShouldShow(clientY, shownOnPage, timeOnSite, now, before + ContactPathPart + after, shownInSession)
  {
    var path := before + ContactPathPart + after;
    assert path[|before|..|before| + |ContactPathPart|] == ContactPathPart;
    assert OccursAt(path, ContactPathPart, |before|);
  }

  /**
   * Measured from start-up at `start`, with the timestamp taken `DwellTimerDelay`
   * ms later, a leave shows the popup only after more than 5100 ms on the page.
   */
  lemma DwellFromStartUp(start: int, clientY: real, shownOnPage: bool, now: int,
                         path: string, shownInSession: bool)
    ensures ShouldShow(clientY, shownOnPage, start + DwellTimerDelay, now, path, shownInSession)
            ==> now - start > Delay + DwellTimerDelay
  {
  }
}
