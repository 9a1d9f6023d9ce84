/**
 * The page's interactive state and its event handlers. Each DOM flag the script
 * reads or writes (class `active`, `scrolled`, `in`, attribute `aria-expanded`,
 * whether the popup and the contact bar are in the document) and each
 * module-level variable (`statsAnimated`, `exitIntentShown`, `timeOnSite`) is a
 * field of `Page`; each event listener is a method. What the browser supplies
 * to a handler (scroll offset, pointer position, the current time, whether a
 * media query matches, which observed elements intersect) is a parameter.
 */
module Site {
  import opened Js
  import Counter
  import Accordion
  import ExitIntent

  /** The header is marked `scrolled` above this scroll offset. */
  const HeaderThreshold: real := 50.0
  /** The contact bar is used only when the viewport is narrower than this at start-up. */
  const StickyMaxWidth: int := 768
  /** The contact bar is shown above this scroll offset. */
  const StickyThreshold: real := 600.0

  /** One IntersectionObserver entry for a `.reveal` element, by its index among them. */
  datatype RevealEntry = RevealEntry(target: nat, isIntersecting: bool)

  /** Some entry of the batch reports element `i` as intersecting. */
  ghost predicate Hit(entries: seq<RevealEntry>, i: nat)
  {
    exists e :: e in entries && e.isIntersecting && e.target == i
  }

  class Page {
    /** Class `active` on `#nav`. */
    var navActive: bool
    /** Attribute `aria-expanded` of `#mobileToggle`. */
    var toggleAria: string

    /** Class `scrolled` on the `header` element. */
    var headerScrolled: bool

    /** The parsed `data-target` of each `.stat-number`. */
    const statTargets: seq<int>
    var statsAnimated: bool
    /** How many times the stats animation has been started. */
    ghost var statsLaunches: nat

    /** Class `in` on each `.reveal` element. */
    const revealed: array<bool>
    /** Whether the reveal observer still observes each `.reveal` element. */
    const observing: array<bool>

    /** Class `active` on the parent item of each `.faq-question`. */
    const faqOpen: array<bool>
    /** Attribute `aria-expanded` of each `.faq-question`. */
    const faqAria: array<string>

    /** `window.location.pathname`. */
    const path: string
    var exitIntentShown: bool
    var timeOnSite: int
    /** Session storage holds key `exitIntentShown`. */
    var sessionExitIntent: bool
    /** The `#exitIntent` overlay is in the document. */
    var overlayPresent: bool
    /** How many times the popup has been shown on this page. */
    ghost var popupsShown: nat

    /** `innerWidth < 768` at start-up: the scroll listener for the contact bar is installed. */
    const stickyEnabled: bool
    /** `#stickyContactBar` is in the document. */
    var stickyBarPresent: bool

    /** `aria-expanded` of the toggle tells whether the menu is open. */
    ghost predicate NavMirrored()
      reads this
    {
      toggleAria == BoolText(navActive)
    }

    /** At most one FAQ item is open, and each question's `aria-expanded` tells whether its item is. */
    ghost predicate FaqConsistent()
      reads this, faqOpen, faqAria
    {
      faqOpen.Length == faqAria.Length
      && Accordion.AtMostOneOpen(faqOpen[..])
      && forall i :: 0 <= i < faqOpen.Length ==> faqAria[i] == BoolText(faqOpen[i])
    }

    /** A `.reveal` element is observed until it is marked `in`, and never after. */
    ghost predicate RevealOneShot()
      reads this, revealed, observing
    {
      revealed.Length == observing.Length
      && forall i :: 0 <= i < revealed.Length ==> revealed[i] == !observing[i]
    }

    /** The stats animation has been started once if the flag is set, else never. */
    ghost predicate StatsOnce()
      reads this
    {
      statsLaunches == if statsAnimated then 1 else 0
    }

    /** The popup has been shown at most once, and its showing is recorded in the session. */
    ghost predicate PopupOnce()
      reads this
    {
      popupsShown == (if exitIntentShown then 1 else 0)
      && (exitIntentShown ==> sessionExitIntent)
      && (overlayPresent ==> exitIntentShown)
    }

    /** On a wide start-up viewport the contact bar is never inserted. */
    ghost predicate StickyGated()
      reads this
    {
      !stickyEnabled ==> !stickyBarPresent
    }

    /** The three boolean arrays are distinct objects. */
    ghost predicate Separate()
      reads this
    {
      revealed != observing && faqOpen != revealed && faqOpen != observing
    }

    ghost predicate Valid()
      reads this, revealed, observing, faqOpen, faqAria
    {
      Separate() && NavMirrored() && FaqConsistent() && RevealOneShot() && StatsOnce() && PopupOnce() && StickyGated()
    }

    /**
     * The page as the script finds it: the menu and every FAQ item closed with
     * `aria-expanded` "false", every `.reveal` element observed and none marked,
     * no flag set, neither the popup nor the bar in the document.
     */
    constructor (statTargets: seq<int>, revealCount: nat, faqCount: nat, innerWidth: int,
                 path: string, sessionExitIntent: bool)
      ensures Valid()
      ensures fresh(revealed) && fresh(observing) && fresh(faqOpen) && fresh(faqAria)
      ensures this.statTargets == statTargets && this.path == path
      ensures revealed.Length == revealCount && faqOpen.Length == faqCount
      ensures stickyEnabled <==> innerWidth < StickyMaxWidth
      ensures !navActive && !headerScrolled && !statsAnimated && !exitIntentShown && timeOnSite == 0
      ensures this.sessionExitIntent == sessionExitIntent && !overlayPresent && !stickyBarPresent
      ensures forall i :: 0 <= i < revealCount ==> !revealed[i] && observing[i]
      ensures forall i :: 0 <= i < faqCount ==> !faqOpen[i]
    {
      navActive := false;
      toggleAria := "false";
      headerScrolled := false;
      this.statTargets := statTargets;
      statsAnimated := false;
      statsLaunches := 0;
      revealed := new bool[revealCount](_ => false);
      observing := new bool[revealCount](_ => true);
      faqOpen := new bool[faqCount](_ => false);
      faqAria := new string[faqCount](_ => "false");
      this.path := path;
      exitIntentShown := false;
      timeOnSite := 0;
      this.sessionExitIntent := sessionExitIntent;
      overlayPresent := false;
      popupsShown := 0;
      stickyEnabled := innerWidth < StickyMaxWidth;
      stickyBarPresent := false;
      new;
      assert faqOpen[..] == seq(faqCount, _ => false);
    }

    /** Click on `#mobileToggle`: flip the menu and write the new state into `aria-expanded`. */
    method ClickToggle()
      requires Valid()
      modifies this`navActive, this`toggleAria
      ensures Valid()
      ensures navActive == !old(navActive)
      ensures toggleAria == BoolText(navActive)
    {
      var isOpen := navActive;
      navActive := !navActive;
      toggleAria := BoolText(!isOpen);
    }

    /** Click on a `.nav-link`: close the menu. */
    method ClickNavLink()
      requires Valid()
      modifies this`navActive, this`toggleAria
      ensures Valid()
      ensures !navActive && toggleAria == "false"
    {
      navActive := false;
      toggleAria := "false";
    }

    /** A change of the `(min-width: 860px)` media query: close the menu when it now matches. */
    method MediaQueryChange(matches: bool)
      requires Valid()
      modifies this`navActive, this`toggleAria
      ensures Valid()
      ensures matches ==> !navActive && toggleAria == "false"
      ensures !matches ==> navActive == old(navActive) && toggleAria == old(toggleAria)
    {
      if matches {
        navActive := false;
        toggleAria := "false";
      }
    }

    /** The header's scroll listener at scroll offset `offset`. */
    method ScrollHeader(offset: real)
      requires Valid()
      modifies this`headerScrolled
      ensures Valid()
      ensures headerScrolled <==> offset > HeaderThreshold
    {
      if offset > HeaderThreshold {
        headerScrolled := true;
      } else {
        headerScrolled := false;
      }
    }

    /**
     * The contact bar's scroll listener at scroll offset `offset`; it is
     * installed only when `stickyEnabled`. The results tell whether the bar was
     * appended to or removed from the document.
     */
    method ScrollStickyBar(offset: real) returns (barAppended: bool, barRemoved: bool)
      requires Valid()
      modifies this`stickyBarPresent
      ensures Valid()
      ensures stickyEnabled ==> (stickyBarPresent <==> offset > StickyThreshold)
      ensures !stickyEnabled ==> !stickyBarPresent && !barAppended && !barRemoved
      ensures barAppended <==> stickyEnabled && offset > StickyThreshold && !old(stickyBarPresent)
      ensures barRemoved <==> stickyEnabled && offset <= StickyThreshold && old(stickyBarPresent)
    {
      barAppended, barRemoved := false, false;
      if !stickyEnabled {
        return;
      }
      if offset > StickyThreshold {
        if !stickyBarPresent {
          stickyBarPresent := true;
          barAppended := true;
        }
      } else {
        if stickyBarPresent {
          stickyBarPresent := false;
          barRemoved := true;
        }
      }
    }

    /**
     * A batch of stats-observer entries, each given by its `isIntersecting`.
     * The first intersecting entry on a page where the animation has not yet
     * run starts one counter per stat; the result holds the numbers each
     * started counter shows, tick by tick.
     */
    method StatsIntersect(entries: seq<bool>) returns (animations: seq<seq<int>>)
      requires Valid()
      modifies this`statsAnimated, this`statsLaunches
      ensures Valid()
      ensures statsLaunches <= 1
      ensures statsAnimated == (old(statsAnimated) || true in entries)
      ensures |animations| == if !old(statsAnimated) && true in entries then |statTargets| else 0
      ensures forall j :: 0 <= j < |animations| ==>
                |animations[j]| == Counter.TickCount(statTargets[j], Counter.StatsDuration)
                && animations[j][|animations[j]| - 1] == statTargets[j]
    {
      animations := [];
      var n := 0;
      while n < |entries|
        invariant 0 <= n <= |entries|
        invariant StatsOnce()
        invariant statsAnimated == (old(statsAnimated) || true in entries[..n])
        invariant |animations| == if !old(statsAnimated) && true in entries[..n] then |statTargets| else 0
        invariant forall j :: 0 <= j < |animations| ==>
                    |animations[j]| == Counter.TickCount(statTargets[j], Counter.StatsDuration)
                    && animations[j][|animations[j]| - 1] == statTargets[j]
      {
        assert entries[..n + 1] == entries[..n] + [entries[n]];
        if entries[n] && !statsAnimated {
          statsAnimated := true;
          statsLaunches := statsLaunches + 1;
          var s := 0;
          while s < |statTargets|
            invariant 0 <= s <= |statTargets|
            invariant |animations| == s
            invariant statsAnimated && statsLaunches == 1
            invariant forall j :: 0 <= j < s ==>
                        |animations[j]| == Counter.TickCount(statTargets[j], Counter.StatsDuration)
                        && animations[j][|animations[j]| - 1] == statTargets[j]
          {
            var shown := Counter.AnimateCounter(statTargets[s], Counter.StatsDuration);
            Counter.TickCountIsFirstReached(statTargets[s], Counter.StatsDuration);
            animations := animations + [shown];
            s := s + 1;
          }
        }
        n := n + 1;
      }
      assert entries[..|entries|] == entries;
    }

    /**
     * A batch of reveal-observer entries: each intersecting entry marks its
     * element `in` and stops observing it. The observer reports only elements
     * it observes, so no element is marked a second time.
     */
    method RevealIntersect(entries: seq<RevealEntry>)
      requires Valid()
      requires forall e :: e in entries ==> e.target < observing.Length && observing[e.target]
      modifies revealed, observing
      ensures Valid()
      ensures forall i :: 0 <= i < revealed.Length ==> (revealed[i] <==> old(revealed[i]) || Hit(entries, i))
      ensures forall i :: 0 <= i < revealed.Length && Hit(entries, i) ==> !old(revealed[i])
    {
      var n := 0;
      while n < |entries|
        invariant 0 <= n <= |entries|
        invariant RevealOneShot()
        invariant FaqConsistent()
        invariant forall i :: 0 <= i < revealed.Length ==> (revealed[i] <==> old(revealed[i]) || Hit(entries[..n], i))
      {
        assert entries[..n + 1] == entries[..n] + [entries[n]];
        var e := entries[n];
        if e.isIntersecting {
          revealed[e.target] := true;
          observing[e.target] := false;
        }
        n := n + 1;
      }
      assert entries[..|entries|] == entries;
    }

    /**
     * A click on an anchor whose `href` starts with "#". Unless the handler
     * skips it, default navigation is prevented and, when the target element
     * exists, an open menu is closed. The result tells whether the default
     * navigation was prevented.
     */
    method ClickAnchor(href: string, onclick: Option<string>, targetFound: bool) returns (defaultPrevented: bool)
      requires Valid()
      requires |href| > 0 && href[0] == '#'
      modifies this`navActive, this`toggleAria
      ensures Valid()
      ensures defaultPrevented <==> href != "#" && (onclick == None || onclick == Some(""))
      ensures defaultPrevented && targetFound ==> !navActive && toggleAria == "false"
      ensures !(defaultPrevented && targetFound) ==> navActive == old(navActive) && toggleAria == old(toggleAria)
    {
      if href == "#" || Truthy(onclick) {
        return false;
      }
      defaultPrevented := true;
      if targetFound {
        if navActive {
          navActive := false;
          toggleAria := "false";
        }
      }
    }

    /**
     * A click on FAQ question `k`: close every item and reset every question's
     * `aria-expanded`, then reopen item `k` if it was closed before the click.
     */
    method ClickQuestion(k: nat)
      requires Valid()
      requires k < faqOpen.Length
      modifies faqOpen, faqAria
      ensures Valid()
      ensures faqOpen[..] == Accordion.AfterClick(old(faqOpen[..]), k)
      ensures forall i :: 0 <= i < faqAria.Length ==> faqAria[i] == BoolText(faqOpen[i])
    {
      var isActive := faqOpen[k];
      var i := 0;
      while i < faqOpen.Length
        invariant 0 <= i <= faqOpen.Length
        invariant forall j :: 0 <= j < i ==> !faqOpen[j] && faqAria[j] == "false"
        invariant forall j :: i <= j < faqOpen.Length ==> faqOpen[j] == old(faqOpen[j])
      {
        faqOpen[i] := false;
        faqAria[i] := "false";
        i := i + 1;
      }
      if !isActive {
        faqOpen[k] := true;
        faqAria[k] := "true";
      }
      assert faqOpen[..] == Accordion.AfterClick(old(faqOpen[..]), k);
      Accordion.AfterClickItems(old(faqOpen[..]), k);
    }

    /** The start-up timeout fires at time `now` and records it as the dwell timestamp. */
    method DwellTimerFires(now: int)
      requires Valid()
      modifies this`timeOnSite
      ensures Valid()
      ensures timeOnSite == now
    {
      timeOnSite := now;
    }

    /**
     * The pointer leaves the document at height `clientY` at time `now`. The
     * result tells whether the popup was shown; showing it sets both the page
     * flag and the session flag.
     */
    method MouseLeave(clientY: real, now: int) returns (shown: bool)
      requires Valid()
      modifies this`exitIntentShown, this`sessionExitIntent, this`overlayPresent, this`popupsShown
      ensures Valid()
      ensures shown == ExitIntent.ShouldShow(clientY, old(exitIntentShown), timeOnSite, now, path, old(sessionExitIntent))
      ensures shown ==> exitIntentShown && sessionExitIntent && overlayPresent
      ensures !shown ==> exitIntentShown == old(exitIntentShown) && sessionExitIntent == old(sessionExitIntent)
                         && overlayPresent == old(overlayPresent)
      ensures popupsShown <= 1
    {
      shown := false;
      if clientY < ExitIntent.TopMargin && !exitIntentShown && timeOnSite != 0
         && now - timeOnSite > ExitIntent.Delay
      {
        var isContactPage := Includes(path, ExitIntent.ContactPathPart);
        if !isContactPage && !sessionExitIntent {
          overlayPresent := true;
          popupsShown := popupsShown + 1;
          exitIntentShown := true;
          sessionExitIntent := true;
          shown := true;
        }
      }
    }

    /**
     * A click inside the popup's `.exit-intent-overlay`: the overlay is removed
     * only when the click lands on the dimmed backdrop itself, not on the modal.
     * The session flag is left as it is.
     */
    method ClickOverlay(onBackdrop: bool)
      requires Valid()
      requires exitIntentShown
      modifies this`overlayPresent
      ensures Valid()
      ensures overlayPresent == (old(overlayPresent) && !onBackdrop)
    {
      if onBackdrop {
        overlayPresent := false;
      }
    }

    /** A click on the popup's close button removes the overlay; the session flag is left as it is. */
    method ClickCloseButton()
      requires Valid()
      requires exitIntentShown
      modifies this`overlayPresent
      ensures Valid()
      ensures !overlayPresent
    {
      overlayPresent := false;
    }
  }

  /** Two clicks on the menu toggle leave the menu and `aria-expanded` as they were. */
  method ToggleTwice(page: Page)
    requires page.Valid()
    modifies page`navActive, page`toggleAria
    ensures page.Valid()
    ensures page.navActive == old(page.navActive) && page.toggleAria == old(page.toggleAria)
  {
    page.ClickToggle();
    page.ClickToggle();
  }

  /** Of two `mouseleave` events on one page, at most one shows the popup. */
  method LeaveTwice(page: Page, y1: real, t1: int, y2: real, t2: int) returns (first: bool, second: bool)
    requires page.Valid()
    modifies page`exitIntentShown, page`sessionExitIntent, page`overlayPresent, page`popupsShown
    ensures page.Valid()
    ensures !(first && second)
  {
    first := page.MouseLeave(y1, t1);
    second := page.MouseLeave(y2, t2);
  }
}
