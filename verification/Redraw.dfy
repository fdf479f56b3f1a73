/**
 The redraw handshake between the button task, which turns pages and asks for
 frames, and the panel task, which draws them.  The tasks share three atomics;
 every load and store is one step, and steps interleave in any order.
 */
module Redraw {
  import opened Numbers

  const PAGE_COUNT := 6
  const MODULUS := 0x1_0000_0000

  /** The button task: at rest, or between waking the screen or storing a page and its counter bump. */
  datatype Button = Watching | Woke | TurnedPage

  /** The panel task between two of its loads. */
  datatype Panel =
    | Between
    | HasRequest(req: u32)
    | ScreenIsOn(req: u32)
    | Drawing(req: u32, sampled: u8)
    | Drawn(req: u32, sampled: u8)
    | Confirming(req: u32, sampled: u8, pageNow: u8)

  datatype Ui = Ui(
    page: u8,
    screenOn: bool,
    renderReq: u32,
    button: Button,
    panel: Panel,
    lastDrawn: u32,
    painted: u8)

  datatype Action =
    | Press | Blank | Bump | Refresh
    | LoadRequest | LoadScreen | LoadPage | Paint | ReloadPage | ReloadRequest

  /** The page after this one; stored indices are taken modulo the page count. */
  function NextPage(index: u8): u8 {
    (index % PAGE_COUNT + 1) % PAGE_COUNT
  }

  function PageOf(index: u8): u8 {
    index % PAGE_COUNT
  }

  predicate Booted(s: Ui) {
    && s.page == 0 && s.renderReq == 1 && s.lastDrawn == 0
    && s.button == Watching && s.panel == Between
  }

  predicate Enabled(s: Ui, a: Action) {
    match a
    case Press => s.button.Watching?
    case Blank => s.button.Watching?
    case Bump => !s.button.Watching?
    case Refresh => s.button.Watching?
    case LoadRequest => s.panel.Between?
    case LoadScreen => s.panel.HasRequest?
    case LoadPage => s.panel.ScreenIsOn?
    case Paint => s.panel.Drawing?
    case ReloadPage => s.panel.Drawn?
    case ReloadRequest => s.panel.Confirming?
  }

  function Apply(s: Ui, a: Action): Ui
    requires Enabled(s, a)
  {
    match a
    case Press =>
      // A press on a dark screen only wakes it; otherwise it turns the page.
      if s.screenOn then s.(page := NextPage(s.page), button := TurnedPage) else s.(screenOn := true, button := Woke)
    case Blank => s.(screenOn := false)
    case Bump => s.(renderReq := (s.renderReq + 1) % MODULUS, button := Watching)
    case Refresh => if s.screenOn then s.(renderReq := (s.renderReq + 1) % MODULUS) else s
    case LoadRequest => s.(panel := HasRequest(s.renderReq))
    case LoadScreen =>
      s.(panel := if s.screenOn && s.panel.req != s.lastDrawn then ScreenIsOn(s.panel.req) else Between)
    case LoadPage => s.(panel := Drawing(s.panel.req, PageOf(s.page)))
    case Paint => s.(painted := s.panel.sampled, panel := Drawn(s.panel.req, s.panel.sampled))
    case ReloadPage => s.(panel := Confirming(s.panel.req, s.panel.sampled, PageOf(s.page)))
    case ReloadRequest =>
      var done := s.panel.pageNow == s.panel.sampled && s.renderReq == s.panel.req;
      s.(lastDrawn := if done then s.panel.req else s.lastDrawn, panel := Between)
  }

  /** `s` is reached from a boot state, the request counter never wrapping. */
  ghost predicate Reaches(actions: seq<Action>, s: Ui)
    decreases |actions|
  {
    if actions == [] then Booted(s)
    else
      var a := actions[|actions| - 1];
      exists p :: Reaches(actions[..|actions| - 1], p) && Enabled(p, a) && s == Apply(p, a)
                  && p.renderReq <= s.renderReq
  }

  // --- Invariant ---

  ghost predicate Quiet(s: Ui) {
    !s.button.TurnedPage?
  }

  ghost predicate PanelInv(s: Ui) {
    match s.panel
    case Between => true
    case HasRequest(req) => s.lastDrawn <= req <= s.renderReq
    case ScreenIsOn(req) => s.lastDrawn < req <= s.renderReq
    case Drawing(req, _) => s.lastDrawn < req <= s.renderReq
    case Drawn(req, sampled) => s.lastDrawn < req <= s.renderReq && s.painted == sampled
    case Confirming(req, sampled, pageNow) =>
      && s.lastDrawn < req <= s.renderReq && s.painted == sampled
      && (s.renderReq == req && Quiet(s) ==> PageOf(s.page) == pageNow)
  }

  ghost predicate Inv(s: Ui) {
    && s.lastDrawn <= s.renderReq
    && PanelInv(s)
    && (s.lastDrawn == s.renderReq && Quiet(s) ==> s.painted == PageOf(s.page))
  }

  lemma ApplyKeepsInv(s: Ui, a: Action)
    requires Inv(s) && Enabled(s, a) && s.renderReq <= Apply(s, a).renderReq
    ensures Inv(Apply(s, a))
  {
  }

  lemma {:induction false} ReachableInv(actions: seq<Action>, s: Ui)
    requires Reaches(actions, s)
    ensures Inv(s)
    decreases |actions|
  {
    if actions != [] {
      var a := actions[|actions| - 1];
      var p :| Reaches(actions[..|actions| - 1], p) && Enabled(p, a) && s == Apply(p, a) && p.renderReq <= s.renderReq;
      ReachableInv(actions[..|actions| - 1], p);
      ApplyKeepsInv(p, a);
    }
  }

  /** The page shown after `n` turns. */
  function Turned(index: u8, n: nat): u8 {
    if n == 0 then index else NextPage(Turned(index, n - 1))
  }

  /** Turning goes through the six pages in order and comes round. */
  lemma {:induction false} TurnsCycle(index: u8, n: nat)
    ensures PageOf(Turned(index, n)) == (index + n) % 6
  {
    hide NextPage, PageOf;
    if n > 0 {
      TurnsCycle(index, n - 1);
      NextIsOneOn(Turned(index, n - 1));
      OneMore(index + n - 1);
    } else {
      PageIsRemainder(index);
    }
  }

  lemma NextIsOneOn(index: u8)
    ensures PageOf(NextPage(index)) == (PageOf(index) + 1) % 6
  {
  }

  lemma PageIsRemainder(index: u8)
    ensures PageOf(index) == index % 6
  {
  }

  lemma OneMore(x: nat)
    ensures (x % 6 + 1) % 6 == (x + 1) % 6
  {
  }

  /** A press turns one page on a lit screen and only wakes a dark one; nothing else touches the page. */
  lemma OnlyPressesTurn(s: Ui, a: Action)
    requires Enabled(s, a)
    ensures var s' := Apply(s, a);
            if a.Press? && s.screenOn then s'.page == Turned(s.page, 1) && s'.screenOn && s'.button.TurnedPage?
            else s'.page == s.page && (a.Press? ==> s'.screenOn && s'.button.Woke?)
  {
    assert Turned(s.page, 1) == NextPage(Turned(s.page, 0));
  }

  /** A frame is asked for after every press, and by every refresh of a lit screen; by nothing else. */
  lemma OnlyTheseAsk(s: Ui, a: Action)
    requires Enabled(s, a)
    ensures Apply(s, a).renderReq
         == if a.Bump? || (a.Refresh? && s.screenOn) then (s.renderReq + 1) % 0x1_0000_0000 else s.renderReq
    ensures a.Press? ==> Enabled(Apply(s, a), Bump)
  {
  }

  /** A frame is recorded as drawn only while nothing newer is asked for, and then the page painted is current. */
  lemma RecordedOnlyWhenCurrent(actions: seq<Action>, s: Ui, a: Action)
    requires Reaches(actions, s) && Enabled(s, a) && s.renderReq <= Apply(s, a).renderReq
    ensures var s' := Apply(s, a);
            s'.lastDrawn != s.lastDrawn ==>
              s'.lastDrawn == s'.renderReq && (!s'.button.TurnedPage? ==> s'.painted == PageOf(s'.page))
  {
    ReachableInv(actions, s);
    ApplyKeepsInv(s, a);
  }

  /**
   In every interleaving, when the panel has caught up with the requests and the
   button task is not between its page store and its bump, the page on the panel
   is the current page.
   */
  lemma CaughtUpMeansCurrent(actions: seq<Action>, s: Ui)
    requires Reaches(actions, s) && s.panel.Between? && !s.button.TurnedPage? && s.lastDrawn == s.renderReq
    ensures s.painted == PageOf(s.page)
  {
    ReachableInv(actions, s);
  }

  /** One undisturbed pass of the panel, from the top of its loop. */
  ghost function Pass(s: Ui): Ui
    requires s.panel.Between?
  {
    var s1 := Apply(Apply(s, LoadRequest), LoadScreen);
    if s1.panel.Between? then s1
    else Apply(Apply(Apply(Apply(s1, LoadPage), Paint), ReloadPage), ReloadRequest)
  }

  /**
   Nothing is lost: with the screen on and the button at rest, one undisturbed
   pass catches up, and then the panel shows the current page.
   */
  lemma OnePassCatchesUp(actions: seq<Action>, s: Ui)
    requires Reaches(actions, s) && s.panel.Between? && !s.button.TurnedPage? && s.screenOn
    ensures var s' := Pass(s);
            s'.panel.Between? && s'.lastDrawn == s'.renderReq == s.renderReq
            && s'.page == s.page && s'.painted == PageOf(s.page)
  {
    ReachableInv(actions, s);
  }
}
