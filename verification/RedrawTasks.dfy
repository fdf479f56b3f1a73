/**
 The two tasks as loops over the shared atomics.  Between any two loads of the
 panel task the button task may run any number of its own steps.
 */
module RedrawTasks {
  import opened Numbers
  import opened Redraw

  /** With no request made since `was` and none due, the page is the same and the screen has not come on. */
  ghost predicate Since(was: Ui, now: Ui) {
    && was.renderReq <= now.renderReq
    && (now.renderReq == was.renderReq && now.button.Watching? ==>
          was.button.Watching? && now.page == was.page && (now.screenOn ==> was.screenOn))
  }

  class UiTasks {
    // Shared atomics.
    var page: u8
    var screenOn: bool
    var renderReq: u32

    // Where the button task is, the panel task's local, and the page on the glass.
    var button: Button
    var lastDrawn: u32
    var painted: u8
    ghost var panel: Panel

    ghost function View(): Ui
      reads this
    {
      Ui(page, screenOn, renderReq, button, panel, lastDrawn, painted)
    }

    ghost predicate Valid()
      reads this
    {
      Inv(View())
    }

    constructor (painted: u8)
      ensures Valid() && Booted(View())
    {
      page, screenOn, renderReq, button := 0, true, 1, Watching;
      lastDrawn, this.painted, panel := 0, painted, Between;
    }

    /** One step of the button task; the request counter is not allowed to wrap. */
    method ButtonStep(a: Action)
      requires Valid() && a in {Press, Blank, Bump, Refresh} && Enabled(View(), a)
      requires renderReq < MODULUS - 1
      modifies this`page, this`screenOn, this`renderReq, this`button
      ensures Valid() && View() == Apply(old(View()), a)
    {
      ApplyKeepsInv(View(), a);
      match a
      case Press =>
        if !screenOn {
          screenOn := true;
          button := Woke;
        } else {
          page := NextPage(page);
          button := TurnedPage;
        }
      case Bump =>
        renderReq := renderReq + 1;
        button := Watching;
      case Blank =>
        screenOn := false;
      case Refresh =>
        if screenOn {
          renderReq := renderReq + 1;
        }
    }

    /** Any number of button steps. */
    method ButtonRuns()
      requires Valid()
      modifies this`page, this`screenOn, this`renderReq, this`button
      ensures Valid() && Since(old(View()), View())
    {
      var steps: nat := *;
      while steps > 0 && renderReq < MODULUS - 1
        invariant Valid() && Since(old(View()), View())
        decreases steps
      {
        if {
          case button.Watching? => ButtonStep(Press);
          case button.Watching? => ButtonStep(Blank);
          case button.Watching? => ButtonStep(Refresh);
          case !button.Watching? => ButtonStep(Bump);
        }
        steps := steps - 1;
      }
    }

    /**
     One lap of the panel task, interrupted anywhere.  A lap that ends with the
     screen on, nothing asked for since it began and nothing due has caught up and
     shows the current page; every other lap leaves the request open, or records
     the latest one, made no earlier than its start.
     */
    method PanelPass()
      requires Valid() && panel.Between?
      modifies this
      ensures Valid() && panel.Between? && Since(old(View()), View())
      ensures screenOn && button.Watching? && renderReq == old(renderReq) ==>
                lastDrawn == renderReq && painted == PageOf(page)
      ensures lastDrawn == old(lastDrawn) || old(renderReq) <= lastDrawn == renderReq
      ensures old(lastDrawn) == old(renderReq) == renderReq ==> painted == old(painted)
    {
      hide PanelInv;
      ApplyKeepsInv(View(), LoadRequest);
      var req := renderReq;
      panel := HasRequest(req);
      ButtonRuns();
      ApplyKeepsInv(View(), LoadScreen);
      if screenOn && req != lastDrawn {
        panel := ScreenIsOn(req);
        DrawFrame(req);
      } else {
        panel := Between;
      }
    }

    /** The frame for request `req`: sample the page, paint it, and confirm that nothing changed meanwhile. */
    method DrawFrame(req: u32)
      requires Valid() && panel == ScreenIsOn(req) && req <= renderReq
      modifies this
      ensures Valid() && panel.Between? && Since(old(View()), View())
      ensures button.Watching? && renderReq == req ==> lastDrawn == req && painted == PageOf(page)
      ensures lastDrawn == old(lastDrawn) || lastDrawn == req == renderReq
    {
      hide PanelInv, PageOf;
      ButtonRuns();
      ApplyKeepsInv(View(), LoadPage);
      var sampled := PageOf(page);
      panel := Drawing(req, sampled);
      ButtonRuns();
      ApplyKeepsInv(View(), Paint);
      painted := sampled;
      panel := Drawn(req, sampled);
      ConfirmFrame(req, sampled);
    }

    /** The frame counts as drawn when neither the page nor the request has moved since it was sampled. */
    method ConfirmFrame(req: u32, sampled: u8)
      requires Valid() && panel == Drawn(req, sampled) && req <= renderReq
      modifies this`page, this`screenOn, this`renderReq, this`button, this`panel, this`lastDrawn
      ensures Valid() && panel.Between? && Since(old(View()), View())
      ensures button.Watching? && renderReq == req && old(PageOf(page)) == sampled ==> lastDrawn == req
      ensures lastDrawn == old(lastDrawn) || lastDrawn == req == renderReq
    {
      hide PanelInv, PageOf;
      ButtonRuns();
      ApplyKeepsInv(View(), ReloadPage);
      var pageNow := PageOf(page);
      panel := Confirming(req, sampled, pageNow);
      ButtonRuns();
      ApplyKeepsInv(View(), ReloadRequest);
      var reqNow := renderReq;
      if pageNow == sampled && reqNow == req {
        lastDrawn := req;
      }
      panel := Between;
    }
  }
}
