/**
  The compositor's functions as they are written: they update the fields of one server
  object.  Each does to the fields what the state function of the same step does.
 */
module CompositorServer {
  import opened Common
  import opened Compositor
  import opened CompositorRun
  import opened CompositorOrder
  import opened CompositorEffects
  import opened CompositorLeaving

  class Server {
    var win: map<Wid, Window>
    var live: set<Wid>
    var windows: seq<Wid>
    var clients: map<Client, seq<Wid>>
    var bottom: Option<Wid>
    var mid: seq<Wid>
    var overlay: seq<Wid>
    var menu: seq<Wid>
    var top: Option<Wid>
    var minimized: seq<Wid>
    var focused: Option<Wid>
    var nextWid: Wid
    var nextBuf: BufId
    var released: seq<BufId>

    ghost function View(): State
      reads this
    {
      State(win, live, windows, clients, bottom, mid, overlay, menu, top, minimized, focused, nextWid, nextBuf, released)
    }

    constructor ()
      ensures View() == START && Inv(View())
    {
      win, live, windows, clients := map[], {}, [], map[];
      bottom, mid, overlay, menu, top, minimized := None, [], [], [], None, [];
      focused, nextWid, nextBuf, released := None, 1, 1, [];
      StartGood();
    }

    function Fields(w: Wid): Window
      reads this
    {
      if w in win then win[w] else UNKNOWN
    }

    method UnorderWindow(w: Wid)
      modifies this
      ensures View() == Unorder(old(View()), w)
      ensures Undisturbed(old(View()), View(), w)
    {
      hide Remove, List, WithList, Undisturbed;
      UnorderKeepsOrder(View(), w);
      var z := Fields(w).z;
      win := win[w := Fields(w).(z := TOP)];
      if z == BOTTOM && bottom == Some(w) {
        bottom := None;
        return;
      }
      if z == TOP && top == Some(w) {
        top := None;
        return;
      }
      TakeOff(Owner(z), w);
    }

    method TakeOff(k: Stack, w: Wid)
      modifies this`mid, this`overlay, this`menu
      ensures View() == WithList(old(View()), k, Remove(List(old(View()), k), w))
    {
      hide Remove;
      match k
      case Mid => mid := Remove(mid, w);
      case Overlay => overlay := Remove(overlay, w);
      case Menu => menu := Remove(menu, w);
      case Single =>
    }

    method PutOn(k: Stack, w: Wid)
      requires k != Single
      modifies this`mid, this`overlay, this`menu
      ensures View() == WithList(old(View()), k, List(old(View()), k) + [w])
    {
      match k
      case Mid => mid := mid + [w];
      case Overlay => overlay := overlay + [w];
      case Menu => menu := menu + [w];
    }

    method ReorderWindow(w: Wid, z: int)
      modifies this
      ensures View() == Reorder(old(View()), w, z)
      ensures Inv(old(View())) && w in old(live) && z <= TOP ==>
                if old(Fields(w).minimized) then !Inv(View()) else Inv(View()) && Restacked(old(View()), View(), w, z)
    {
      hide Unorder, List, WithList, Inv, Restacked, Undisturbed;
      if Inv(View()) && w in live && z <= TOP { StackDoes(View(), w, z); }
      UnorderWindow(w);
      win := win[w := Fields(w).(z := z)];
      if Owner(z) != Single {
        PutOn(Owner(z), w);
      } else if z == TOP {
        if top.Some? { UnorderWindow(top.value); }
        top := Some(w);
      } else {
        if bottom.Some? { UnorderWindow(bottom.value); }
        bottom := Some(w);
      }
    }

    method RaiseWindow(w: Wid)
      modifies this
      ensures View() == MakeTop(old(View()), w)
      ensures Inv(old(View())) && w in old(live) ==> Inv(View()) && Raised(old(View()), View(), w)
    {
      hide Remove, Inv, Raised;
      if Inv(View()) && w in live { RaiseDoes(View(), w); }
      match Owner(Fields(w).z)
      case Mid => if w in mid { mid := Remove(mid, w) + [w]; }
      case Overlay => if w in overlay { overlay := Remove(overlay, w) + [w]; }
      case Menu => if w in menu { menu := Remove(menu, w) + [w]; }
      case Single =>
    }

    method UnminimizeWindow(w: Wid)
      modifies this
      ensures View() == Unminimize(old(View()), w)
      ensures Undisturbed(old(View()), View(), w) && !Fields(w).minimized
    {
      hide Remove, Undisturbed;
      UnminimizeEffect(View(), w);
      if !Fields(w).minimized { return; }
      minimized := Remove(minimized, w);
      mid := mid + [w];
      win := win[w := Fields(w).(z := 1, minimized := false, anim := Unminimizing)];
    }

    method SetFocusedWindow(o: Option<Wid>)
      modifies this
      ensures View() == SetFocused(old(View()), o)
      ensures Inv(old(View())) && (o.Some? ==> o.value in old(live)) ==>
                && Inv(View()) && (o.Some? ==> Focused(old(View()), View(), o.value))
                && (o.None? ==> View() == old(View()).(focused := if old(focused).Some? then old(bottom) else None))
    {
      hide Unminimize, MakeTop, Inv, Focused, Raised, Undisturbed;
      if Inv(View()) && (o.Some? ==> o.value in live) { FocusDoes(View(), o); }
      if o == focused { return; }
      UnminimizeIs(View(), if o.Some? then o.value else 0);
      if o.Some? { UnminimizeWindow(o.value); }
      var t := if o.Some? then o else bottom;
      focused := t;
      if t.Some? { RaiseWindow(t.value); }
    }

    /** The focus goes to the last menu window, else the last ordinary one, else the bottom. */
    method Refocus(w: Wid)
      modifies this
      ensures View() == DropFocus(old(View()), w)
      ensures AllBut(old(View()), w) ==>
                View() == old(View()).(focused := if old(focused) == Some(w) then Heir(old(View())) else old(focused))
    {
      hide SetFocused, AllBut, Inv, Focused;
      if AllBut(View(), w) { DropFocusIs(View(), w); }
      if focused == Some(w) {
        focused := None;
        if menu != [] {
          SetFocusedWindow(Some(menu[|menu| - 1]));
        } else if mid != [] {
          SetFocusedWindow(Some(mid[|mid| - 1]));
        } else {
          SetFocusedWindow(bottom);
        }
      }
    }

    method FinishMinimizeWindow(w: Wid)
      modifies this
      ensures View() == FinishMinimize(old(View()), w)
      ensures Stacked(old(View())) && w in old(live) && !old(Fields(w).minimized) ==>
                Stacked(View()) && Minimized(old(View()), View(), w)
    {
      hide Unorder, DropFocus, Stacked, Minimized, Undisturbed, AllBut, Heir;
      if Stacked(View()) && w in live && !Fields(w).minimized { MinimizeDoes(View(), w); }
      if Fields(w).minimized { return; }
      win := win[w := Fields(w).(minimized := true, anim := Idle)];
      UnorderWindow(w);
      Refocus(w);
      minimized := minimized + [w];
    }

    method ActuallyCloseWindow(w: Wid)
      modifies this
      ensures View() == ActuallyClose(old(View()), w)
      ensures Stacked(old(View())) && w in old(live) ==> Stacked(View()) && Closed(old(View()), View(), w)
    {
      hide Unorder, DropFocus, Remove, Stacked, Closed, Undisturbed, AllBut, Heir;
      if Stacked(View()) && w in live { CloseDoes(View(), w); }
      live := live - {w};
      windows := Remove(windows, w);
      if Fields(w).minimized { minimized := Remove(minimized, w); }
      UnorderWindow(w);
      Refocus(w);
      released := released + [Fields(w).bufid];
    }

    method MarkForCloseWindow(w: Wid)
      modifies this
      ensures View() == MarkForClose(old(View()), w)
      ensures Stacked(old(View())) && w in old(live) ==> Marked(old(View()), View(), w)
    {
      hide ActuallyClose, Stacked, Closed, Marked;
      if Stacked(View()) && w in live { MarkDoes(View(), w); }
      if Fields(w).hidden || Fields(w).minimized {
        ActuallyCloseWindow(w);
      } else {
        win := win[w := Fields(w).(anim := Closing)];
      }
    }

    method CreateWindow(c: Client, still: bool) returns (w: Wid)
      requires c in clients
      modifies this
      ensures w == old(nextWid) && View() == Create(old(View()), c, still)
      ensures Inv(old(View())) ==> Inv(View()) && Created(old(View()), View(), w, c, still)
    {
      hide Inv, Created;
      if Inv(View()) { CreateDoes(View(), c, still); }
      w := Register(c);
      win := win[w := Window(1, false, true, Idle, nextBuf, 0, c, false, still)];
      nextBuf := nextBuf + 1;
      mid := mid + [w];
    }

    /** A new id enters the list of windows, the map of ids and the client's list. */
    method Register(c: Client) returns (w: Wid)
      requires c in clients
      modifies this`nextWid, this`windows, this`live, this`clients
      ensures w == old(nextWid) && nextWid == w + 1 && windows == old(windows) + [w] && live == old(live) + {w}
      ensures clients == old(clients)[c := old(clients)[c] + [w]]
    {
      w := nextWid;
      nextWid := nextWid + 1;
      windows := windows + [w];
      live := live + {w};
      clients := clients[c := clients[c] + [w]];
    }

    method ResizeWindow(w: Wid) returns (b: BufId)
      modifies this
      ensures View() == Resize(old(View()), w) && b == Fields(w).newbufid
      ensures Inv(old(View())) && w in old(live) ==> Inv(View()) && Offered(old(View()), View(), w)
    {
      hide Inv, Offered, Swapped;
      if Inv(View()) && w in live { ResizeDoes(View(), w); }
      if Fields(w).newbufid == 0 {
        win := win[w := Fields(w).(newbufid := nextBuf)];
        nextBuf := nextBuf + 1;
      }
      b := Fields(w).newbufid;
    }

    method ResizeFinishWindow(w: Wid)
      modifies this
      ensures View() == ResizeFinish(old(View()), w)
      ensures Inv(old(View())) && w in old(live) ==> Inv(View()) && Swapped(old(View()), View(), w)
    {
      hide Inv, Offered, Swapped;
      if Inv(View()) && w in live { ResizeDoes(View(), w); }
      if Fields(w).newbufid == 0 { return; }
      var oldbufid := Fields(w).bufid;
      win := win[w := Fields(w).(bufid := Fields(w).newbufid, newbufid := 0)];
      released := released + [oldbufid];
    }

    /** The disconnection of a client. */
    method DisconnectClient(c: Client)
      modifies this
      ensures View() == Step(old(View()), Disconnect(c))
      ensures Inv(old(View())) && c in old(clients) ==> Inv(View()) && Disconnected(old(View()), View(), c)
    {
      hide MarkForClose, Inv, Disconnected, Marked, Stacked;
      if Inv(View()) && c in clients { DisconnectDoes(View(), c); }
      if c in clients {
        var ws := clients[c];
        ghost var goal := MarkAll(View(), ws);
        var i := 0;
        while i < |ws|
          invariant 0 <= i <= |ws| && MarkAll(View(), ws[i..]) == goal
        {
          MarkForCloseWindow(ws[i]);
          assert ws[i..][1..] == ws[i + 1..];
          i := i + 1;
        }
        clients := clients - {c};
      }
    }

    /** Drawing, as far as it queues windows and ends animations. */
    method Blit(due: set<Wid>) returns (remove: seq<Wid>, minimize: seq<Wid>)
      modifies this`win
      ensures View() == Settle(old(View()), due)
      ensures remove == Due(old(View()), DrawOrder(old(View())), due, Closing)
      ensures minimize == Due(old(View()), DrawOrder(old(View())), due, Minimizing)
    {
      hide Due, SettleAll;
      ghost var s := View();
      var order := Slot(bottom) + mid + overlay + menu + Slot(top);
      BlitStart(s, due, order);
      remove, minimize := [], [];
      var i := 0;
      while i < |order|
        invariant 0 <= i <= |order|
        invariant win == SettleAll(s, due, order[..i]).win
        invariant remove == Due(s, order[..i], due, Closing)
        invariant minimize == Due(s, order[..i], due, Minimizing)
      {
        var w := order[i];
        BlitStep(s, due, order, i);
        if w in due && w in win && !win[w].hidden && !win[w].minimized {
          match win[w].anim
          case Closing => remove := remove + [w];
          case Minimizing => minimize := minimize + [w];
          case Opening => win := win[w := win[w].(anim := Idle)];
          case Unminimizing => win := win[w := win[w].(anim := Idle)];
          case Idle =>
        }
        i := i + 1;
      }
      assert order[..i] == order;
      SettleFrame(s, due, order);
    }

    /** One frame. */
    method RedrawWindows(due: set<Wid>)
      modifies this
      ensures View() == DrawFrame(old(View()), due)
      ensures Inv(old(View())) ==> Inv(View()) && Refreshed(old(View()), View(), due)
    {
      hide Settle, Due, Stuck, ActuallyClose, FinishMinimize, Inv, Refreshed, Closed, Minimized, Stacked;
      if Inv(View()) { FrameDoes(View(), due); }
      ghost var s := View();
      var toRemove, toMinimize := Blit(due);
      var stuck := FindStuck(s);
      toRemove := toRemove + stuck;
      ghost var closed := CloseAll(View(), toRemove);
      while toRemove != []
        invariant CloseAll(View(), toRemove) == closed
        decreases |toRemove|
      {
        var w := toRemove[|toRemove| - 1];
        toRemove := toRemove[..|toRemove| - 1];
        ActuallyCloseWindow(w);
      }
      ghost var done := MinimizeAll(View(), toMinimize);
      while toMinimize != []
        invariant MinimizeAll(View(), toMinimize) == done
        decreases |toMinimize|
      {
        var w := toMinimize[|toMinimize| - 1];
        toMinimize := toMinimize[..|toMinimize| - 1];
        FinishMinimizeWindow(w);
      }
    }

    /** The scan for closing windows that are never drawn. */
    method FindStuck(ghost s: State) returns (stuck: seq<Wid>)
      requires exists due: set<Wid> :: View() == Settle(s, due)
      ensures stuck == Stuck(s, s.windows)
    {
      ghost var due: set<Wid> :| View() == Settle(s, due);
      stuck := [];
      var i := 0;
      while i < |windows|
        invariant 0 <= i <= |windows| && stuck == Stuck(s, windows[..i])
      {
        var w := windows[i];
        StuckStep(s, windows, i);
        if Fields(w).z == TOP && top != Some(w) && Fields(w).anim == Closing { stuck := stuck + [w]; }
        i := i + 1;
      }
      assert windows[..i] == windows;
    }

    /** `window_reveal` */
    method RevealWindow(w: Wid)
      modifies this`win
      ensures View() == Reveal(old(View()), w)
      ensures Inv(old(View())) && w in old(live) ==> Inv(View()) && Revealed(old(View()), View(), w)
    {
      hide Inv, Revealed;
      if Inv(View()) && w in live { RevealDoes(View(), w); }
      if Fields(w).hidden {
        win := win[w := Fields(w).(hidden := false, anim := if Fields(w).still then Idle else Opening)];
      }
    }

    /** `window_mark_for_close` and `window_remove_from_client`, in the order of the close message. */
    method CloseMessage(w: Wid)
      modifies this
      ensures View() == Disown(MarkForClose(old(View()), w), w)
      ensures Inv(old(View())) && w in old(live) ==> Inv(View()) && LetGo(old(View()), View(), w)
    {
      hide MarkForClose, Remove, Inv, LetGo, Marked, Stacked;
      if Inv(View()) && w in live { CloseWindowDoes(View(), w); }
      MarkForCloseWindow(w);
      var c := Fields(w).owner;
      if c in clients {
        clients := clients[c := Remove(clients[c], w)];
      }
    }

    /** A new window, which may take the focus. */
    method NewMessage(c: Client, still: bool, steal: bool)
      requires c in clients
      modifies this
      ensures View() == Step(old(View()), New(c, still, steal))
      ensures Inv(old(View())) ==> Inv(View()) && Did(old(View()), New(c, still, steal), View())
    {
      hide Create, SetFocused, Inv, Did, Created, Focused;
      if Inv(View()) { StepDoes(View(), New(c, still, steal)); }
      var w := CreateWindow(c, still);
      if steal { SetFocusedWindow(Some(w)); }
    }

    /** One event: a message of a client, a mouse action, or a frame. */
    method Handle(e: Event)
      requires Legal(View(), e)
      modifies this
      ensures View() == Step(old(View()), e)
      ensures Inv(old(View())) ==> Inv(View()) && Did(old(View()), e, View())
    {
      hide DrawFrame, SetFocused, Reorder, MakeTop, MarkForClose, Disown, Reveal, Resize, ResizeFinish, MarkAll, Create;
      hide Inv, Did, Stacked, Created, Focused, Raised, LetGo, Restacked, Revealed, Offered, Swapped, Disconnected;
      hide Refreshed;
      if Inv(View()) { StepDoes(View(), e); }
      match e {
        case Hello(c) => if c !in clients { clients := clients[c := []]; }
        case New(c, still, steal) => NewMessage(c, still, steal);
        case Flip(w) => if w in live { RevealWindow(w); }
        case CloseWindow(w) => if w in live { CloseMessage(w); }
        case StackWindow(w, z) => if w in live { ReorderWindow(w, z); }
        case FocusWindow(w) => if w in live { SetFocusedWindow(Some(w)); }
        case Advertise(w) => if w in live { win := win[w := Fields(w).(advertised := true)]; }
        case Minimize(w) =>
          if w in live && Fields(w).advertised { win := win[w := Fields(w).(anim := Minimizing)]; }
        case ResizeAccept(w) => if w in live { var _ := ResizeWindow(w); }
        case ResizeDone(w) => if w in live { ResizeFinishWindow(w); }
        case Raise(w) => if w in live { RaiseWindow(w); }
        case Click(o) => if o.Some? ==> o.value in live { SetFocusedWindow(o); }
        case Disconnect(c) => DisconnectClient(c);
        case Redraw(due) => RedrawWindows(due);
      }
    }

    /** Any legal run: the fields follow the state machine, and the invariants hold at its end. */
    method Serve(es: seq<Event>)
      requires Inv(View()) && LegalRun(View(), es)
      modifies this
      ensures View() == Run(old(View()), es) && Inv(View())
    {
      hide Step, Legal, Inv;
      var i := 0;
      while i < |es|
        invariant 0 <= i <= |es| && Inv(View()) && LegalRun(View(), es[i..])
        invariant Run(View(), es[i..]) == Run(old(View()), es)
      {
        assert es[i..][1..] == es[i + 1..];
        StepKeeps(View(), es[i]);
        Handle(es[i]);
        i := i + 1;
      }
    }

    /** `foreachr` over one stack. */
    method ScanDown(ws: seq<Wid>, solid: Wid -> bool) returns (o: Option<Wid>)
      ensures o == LastHit(View(), solid, ws)
    {
      var k := |ws|;
      assert ws[..k] == ws;
      while k > 0
        invariant 0 <= k <= |ws| && LastHit(View(), solid, ws[..k]) == LastHit(View(), solid, ws)
      {
        if Hit(solid, ws[k - 1]) { return Some(ws[k - 1]); }
        assert ws[..k][..k - 1] == ws[..k - 1];
        k := k - 1;
      }
      return None;
    }

    /** `top_at`: of the windows that are visible and solid at a point, the one drawn last. */
    method TopAt(solid: Wid -> bool) returns (o: Option<Wid>)
      ensures Topmost(View(), solid, DrawOrder(View()), o)
    {
      hide LastHit, Topmost;
      LastHitMeans(View(), solid, DrawOrder(View()));
      OrderHit(View(), solid);
      if top.Some? && Hit(solid, top.value) { return top; }
      o := ScanDown(menu, solid);
      if o.Some? { return; }
      o := ScanDown(overlay, solid);
      if o.Some? { return; }
      o := ScanDown(mid, solid);
      if o.Some? { return; }
      if bottom.Some? && Hit(solid, bottom.value) { return bottom; }
      return None;
    }

    /** `check_top_at` */
    predicate Hit(solid: Wid -> bool, w: Wid)
      reads this
    {
      !Fields(w).hidden && !Fields(w).minimized && solid(w)
    }
  }

  /** The last window of `ws` that is visible and solid. */
  ghost function LastHit(s: State, solid: Wid -> bool, ws: seq<Wid>): Option<Wid> {
    if ws == [] then None
    else
      var w := ws[|ws| - 1];
      if Visible(s, w) && solid(w) then Some(w) else LastHit(s, solid, ws[..|ws| - 1])
  }

  /** `o` is the last of `ws` that is visible and solid, or none of them is. */
  ghost predicate Topmost(s: State, solid: Wid -> bool, ws: seq<Wid>, o: Option<Wid>) {
    match o
    case None => forall i :: 0 <= i < |ws| ==> !(Visible(s, ws[i]) && solid(ws[i]))
    case Some(w) =>
      exists i :: 0 <= i < |ws| && ws[i] == w && Visible(s, w) && solid(w) &&
        forall j :: i < j < |ws| ==> !(Visible(s, ws[j]) && solid(ws[j]))
  }

  lemma {:induction false} LastHitMeans(s: State, solid: Wid -> bool, ws: seq<Wid>)
    ensures Topmost(s, solid, ws, LastHit(s, solid, ws))
  {
    if ws != [] { LastHitMeans(s, solid, ws[..|ws| - 1]); }
  }

  lemma {:induction false} HitConcat(s: State, solid: Wid -> bool, a: seq<Wid>, b: seq<Wid>)
    ensures LastHit(s, solid, a + b) == if LastHit(s, solid, b).Some? then LastHit(s, solid, b) else LastHit(s, solid, a)
    decreases |b|
  {
    if b == [] {
      assert a + b == a;
    } else {
      assert (a + b)[..|a + b| - 1] == a + b[..|b| - 1];
      HitConcat(s, solid, a, b[..|b| - 1]);
    }
  }

  lemma SlotHit(s: State, solid: Wid -> bool, o: Option<Wid>)
    ensures LastHit(s, solid, Slot(o)) == if o.Some? && Visible(s, o.value) && solid(o.value) then o else None
  {
  }

  /** The drawing order, stack by stack. */
  lemma OrderHit(s: State, solid: Wid -> bool)
    ensures LastHit(s, solid, DrawOrder(s)) ==
            if s.top.Some? && Visible(s, s.top.value) && solid(s.top.value) then s.top
            else if LastHit(s, solid, s.menu).Some? then LastHit(s, solid, s.menu)
            else if LastHit(s, solid, s.overlay).Some? then LastHit(s, solid, s.overlay)
            else if LastHit(s, solid, s.mid).Some? then LastHit(s, solid, s.mid)
            else if s.bottom.Some? && Visible(s, s.bottom.value) && solid(s.bottom.value) then s.bottom
            else None
  {
    hide LastHit, Slot;
    SlotHit(s, solid, s.top);
    SlotHit(s, solid, s.bottom);
    HitConcat(s, solid, Slot(s.bottom) + s.mid + s.overlay + s.menu, Slot(s.top));
    HitConcat(s, solid, Slot(s.bottom) + s.mid + s.overlay, s.menu);
    HitConcat(s, solid, Slot(s.bottom) + s.mid, s.overlay);
    HitConcat(s, solid, Slot(s.bottom), s.mid);
  }

  lemma {:induction false} DueSnoc(s: State, ws: seq<Wid>, w: Wid, due: set<Wid>, a: Anim)
    ensures Due(s, ws + [w], due, a) ==
            Due(s, ws, due, a) + if w in due && Visible(s, w) && Get(s, w).anim == a then [w] else []
  {
    hide Visible, Get;
    if ws != [] {
      assert (ws + [w])[1..] == ws[1..] + [w];
      DueSnoc(s, ws[1..], w, due, a);
    }
  }

  lemma {:induction false} StuckSnoc(s: State, ws: seq<Wid>, w: Wid)
    ensures Stuck(s, ws + [w]) ==
            Stuck(s, ws) + if Get(s, w).z == TOP && s.top != Some(w) && Get(s, w).anim == Closing then [w] else []
  {
    hide Get;
    if ws != [] {
      assert (ws + [w])[1..] == ws[1..] + [w];
      StuckSnoc(s, ws[1..], w);
    }
  }

  lemma StuckStep(s: State, ws: seq<Wid>, i: nat)
    requires i < |ws|
    ensures Stuck(s, ws[..i + 1]) ==
            Stuck(s, ws[..i]) +
            if Get(s, ws[i]).z == TOP && s.top != Some(ws[i]) && Get(s, ws[i]).anim == Closing then [ws[i]] else []
  {
    assert ws[..i + 1] == ws[..i] + [ws[i]];
    StuckSnoc(s, ws[..i], ws[i]);
  }

  lemma BlitStart(s: State, due: set<Wid>, order: seq<Wid>)
    ensures SettleAll(s, due, order[..0]) == s && forall a: Anim :: Due(s, order[..0], due, a) == []
  {
    assert SettleAll(s, due, order[..0]).win == s.win;
  }

  lemma SettleFrame(s: State, due: set<Wid>, drawn: seq<Wid>)
    ensures SettleAll(s, due, drawn) == s.(win := SettleAll(s, due, drawn).win)
  {
  }

  /** What drawing one window does to the queues and to its animation. */
  lemma BlitStep(s: State, due: set<Wid>, order: seq<Wid>, i: nat)
    requires i < |order|
    ensures var (w, win) := (order[i], SettleAll(s, due, order[..i]).win);
            var act := w in due && w in win && !win[w].hidden && !win[w].minimized;
            && Due(s, order[..i + 1], due, Closing) ==
               Due(s, order[..i], due, Closing) + (if act && win[w].anim == Closing then [w] else [])
            && Due(s, order[..i + 1], due, Minimizing) ==
               Due(s, order[..i], due, Minimizing) + (if act && win[w].anim == Minimizing then [w] else [])
            && SettleAll(s, due, order[..i + 1]).win ==
               (if act && win[w].anim in {Opening, Unminimizing} then win[w := win[w].(anim := Idle)] else win)
  {
    hide Due;
    var w := order[i];
    assert order[..i + 1] == order[..i] + [w];
    DueSnoc(s, order[..i], w, due, Closing);
    DueSnoc(s, order[..i], w, due, Minimizing);
    SettleStep(s, due, order[..i], w);
  }

  lemma SettleStep(s: State, due: set<Wid>, drawn: seq<Wid>, w: Wid)
    ensures var win := SettleAll(s, due, drawn).win;
            SettleAll(s, due, drawn + [w]).win ==
            if w in due && w in win && !win[w].hidden && !win[w].minimized && win[w].anim in {Opening, Unminimizing}
            then win[w := win[w].(anim := Idle)] else win
  {
  }
}
