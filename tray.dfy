/** The desktop wrapper's tray (`wrapper/src-tauri/src/main.rs`): the menu
    shown for each server status, the handlers of its items, and the
    monitor that redraws the menu when the status changes. */
module Tray {
  import opened Wrappers
  import opened Text
  import opened DesktopServer

  /** A tray menu entry: an item with its id, title and whether it can be
      clicked, or a separator. */
  datatype MenuItem = Item(id: string, title: string, enabled: bool) | Separator

  const Quit: MenuItem := Item("quit", "Quit", true)

  /** The first entry: the action the status allows, or a disabled
      indicator while one is under way. */
  function ActionItem(status: ServerStatus): MenuItem {
    match status
    case Stopped => Item("start", "Start Server", true)
    case Error(_) => Item("start", "Start Server", true)
    case Starting => Item("starting", "Starting...", false)
    case Running(_) => Item("stop", "Stop Server", true)
    case Stopping => Item("stopping", "Stopping...", false)
  }

  /** The disabled status entries: the status in words, and for an error
      its message on an entry of its own. */
  function StatusItems(status: ServerStatus): seq<MenuItem> {
    match status
    case Stopped => [Item("status", "Stopped", false)]
    case Starting => [Item("status", "Starting...", false)]
    case Running(port) => [Item("status", "Running on port " + NatToDecimal(port), false)]
    case Stopping => [Item("status", "Stopping...", false)]
    case Error(message) => [Item("status", "Error", false), Item("error_detail", message, false)]
  }

  /** `create_tray_menu`. */
  function TrayMenu(status: ServerStatus): seq<MenuItem> {
    [ActionItem(status), Separator] + StatusItems(status) + [Separator, Quit]
  }

  /** The menu offers Start exactly when stopped or failed and Stop exactly
      when running; Quit is always last and always enabled; the only other
      enabled entry is the first; an error adds one entry, its message. */
  lemma TrayMenuSpec(status: ServerStatus)
    ensures Item("start", "Start Server", true) in TrayMenu(status) <==> status.Stopped? || status.Error?
    ensures Item("stop", "Stop Server", true) in TrayMenu(status) <==> status.Running?
    ensures TrayMenu(status)[|TrayMenu(status)| - 1] == Quit
    ensures forall i :: 0 < i < |TrayMenu(status)| - 1 ==> !(TrayMenu(status)[i].Item? && TrayMenu(status)[i].enabled)
    ensures |TrayMenu(status)| == if status.Error? then 6 else 5
    ensures status.Error? ==> TrayMenu(status)[3] == Item("error_detail", status.message, false)
    ensures TrayMenu(status)[0].enabled <==> !(status.Starting? || status.Stopping?)
    ensures TrayMenu(status)[2].id == "status"
    ensures status.Running? ==> TrayMenu(status)[2].title == "Running on port " + NatToDecimal(status.port)
  {
    var menu := TrayMenu(status);
    assert menu[0] == ActionItem(status) && menu[1] == Separator;
    assert menu[|menu| - 1] == Quit && menu[|menu| - 2] == Separator;
    assert forall i :: 2 <= i < |menu| - 2 ==> menu[i] == StatusItems(status)[i - 2];
  }

  // ---------------------------------------------------------------------------
  // The handlers
  // ---------------------------------------------------------------------------

  /** The "start" item: starts the server only when it is stopped or
      failed. A failed spawn is reported as Error, so that the item comes
      back. */
  method OnStart(manager: ServerManager, spawn: Result<nat, string>)
    modifies manager
    ensures old(manager.status).Stopped? || old(manager.status).Error? ==>
      (spawn.Ok? ==> manager.status == Starting && manager.process == Some(spawn.value)) &&
      (spawn.Err? ==> manager.status == Error("Failed to start: " + spawn.error) && manager.process == old(manager.process))
    ensures !(old(manager.status).Stopped? || old(manager.status).Error?) ==>
      manager.status == old(manager.status) && manager.process == old(manager.process) &&
      manager.history == old(manager.history)
  {
    var current := manager.GetStatus();
    if current.Stopped? || current.Error? {
      var _ := manager.StartOrFail(spawn);
    }
  }

  /** The "stop" item: stops the server only when it is running. */
  method OnStop(manager: ServerManager, poll: nat -> Poll)
    modifies manager
    ensures old(manager.status).Running? ==>
      manager.status == Stopped && manager.process == None &&
      manager.history == old(manager.history) + [Stopping, Stopped]
    ensures !old(manager.status).Running? ==>
      manager.status == old(manager.status) && manager.process == old(manager.process) &&
      manager.history == old(manager.history)
  {
    var current := manager.GetStatus();
    if current.Running? {
      manager.Stop(poll);
    }
  }

  /** `handle_tray_event`: dispatches on the item's id; "start" and "stop"
      run their handlers, "quit" stops the server whatever its status and
      asks the application to exit; other ids do nothing. */
  method OnTrayEvent(manager: ServerManager, id: string, spawn: Result<nat, string>, poll: nat -> Poll)
    returns (exit: bool)
    modifies manager
    ensures exit <==> id == "quit"
    ensures id == "start" && (old(manager.status).Stopped? || old(manager.status).Error?) ==>
      (spawn.Ok? ==> manager.status == Starting && manager.process == Some(spawn.value)) &&
      (spawn.Err? ==> manager.status == Error("Failed to start: " + spawn.error) && manager.process == old(manager.process))
    ensures id == "stop" && old(manager.status).Running? ==>
      manager.status == Stopped && manager.process == None &&
      manager.history == old(manager.history) + [Stopping, Stopped]
    ensures (id == "start" && !(old(manager.status).Stopped? || old(manager.status).Error?)) ||
            (id == "stop" && !old(manager.status).Running?) ==>
      manager.status == old(manager.status) && manager.process == old(manager.process) &&
      manager.history == old(manager.history)
    ensures id == "quit" && !(old(manager.status).Stopped? || old(manager.status).Stopping?) ==>
      manager.status == Stopped && manager.process == None &&
      manager.history == old(manager.history) + [Stopping, Stopped]
    ensures id == "quit" && (old(manager.status).Stopped? || old(manager.status).Stopping?) ==>
      manager.status == old(manager.status) && manager.process == old(manager.process) &&
      manager.history == old(manager.history)
    ensures id != "start" && id != "stop" && id != "quit" ==>
      manager.status == old(manager.status) && manager.process == old(manager.process) &&
      manager.history == old(manager.history)
  {
    exit := false;
    if id == "start" {
      OnStart(manager, spawn);
    } else if id == "stop" {
      OnStop(manager, poll);
    } else if id == "quit" {
      manager.Stop(poll);
      exit := true;
    }
  }

  // ---------------------------------------------------------------------------
  // The status monitor
  // ---------------------------------------------------------------------------

  /** The statuses the monitor redraws the menu for: each observation that
      differs from the one before it, starting from `last`. */
  function Changes(last: ServerStatus, observed: seq<ServerStatus>): seq<ServerStatus>
    decreases |observed|
  {
    if observed == [] then []
    else if observed[0] != last then [observed[0]] + Changes(observed[0], observed[1..])
    else Changes(last, observed[1..])
  }

  /** `start_status_monitor`: the statuses it redraws the menu for, given
      the statuses it reads every two seconds. */
  method MonitorStatus(observed: seq<ServerStatus>) returns (updates: seq<ServerStatus>)
    ensures updates == Changes(Stopped, observed)
  {
    var last := Stopped;
    updates := [];
    var i := 0;
    while i < |observed|
      invariant 0 <= i <= |observed|
      invariant Changes(Stopped, observed) == updates + Changes(last, observed[i..])
    {
      assert observed[i..][1..] == observed[i + 1..];
      if observed[i] != last {
        updates := updates + [observed[i]];
        last := observed[i];
      }
      i := i + 1;
    }
    assert updates + [] == updates;
  }

  /** The status the tray shows after the updates: the last update, or the
      status it started from. */
  function Shown(last: ServerStatus, updates: seq<ServerStatus>): ServerStatus {
    if updates == [] then last else updates[|updates| - 1]
  }

  /** Every update is a status that was observed. */
  lemma {:induction false} ChangesObserved(last: ServerStatus, observed: seq<ServerStatus>)
    ensures forall u :: u in Changes(last, observed) ==> u in observed
    decreases |observed|
  {
    if observed != [] {
      var next := if observed[0] != last then observed[0] else last;
      ChangesObserved(next, observed[1..]);
      assert forall u :: u in observed[1..] ==> u in observed;
    }
  }

  /** No redraw repeats: the first update differs from the status shown at
      the start, and each later one from the one before it. */
  lemma {:induction false} ChangesDiffer(last: ServerStatus, observed: seq<ServerStatus>)
    ensures |Changes(last, observed)| > 0 ==> Changes(last, observed)[0] != last
    ensures forall i :: 0 < i < |Changes(last, observed)| ==> Changes(last, observed)[i] != Changes(last, observed)[i - 1]
    decreases |observed|
  {
    if observed != [] {
      var rest := observed[1..];
      if observed[0] != last {
        ChangesDiffer(observed[0], rest);
        var c := Changes(observed[0], rest);
        assert Changes(last, observed) == [observed[0]] + c;
        forall i | 1 < i < |c| + 1 ensures ([observed[0]] + c)[i] != ([observed[0]] + c)[i - 1] {
          assert ([observed[0]] + c)[i] == c[i - 1] && ([observed[0]] + c)[i - 1] == c[i - 2];
        }
      } else {
        ChangesDiffer(last, rest);
      }
    }
  }

  /** The tray ends by showing the last status observed, or the one it
      started from when nothing was observed. */
  lemma {:induction false} ChangesShown(last: ServerStatus, observed: seq<ServerStatus>)
    ensures observed != [] ==> Shown(last, Changes(last, observed)) == observed[|observed| - 1]
    ensures observed == [] ==> Shown(last, Changes(last, observed)) == last
    decreases |observed|
  {
    if observed != [] {
      var rest := observed[1..];
      var next := if observed[0] != last then observed[0] else last;
      ChangesShown(next, rest);
      if rest != [] {
        assert rest[|rest| - 1] == observed[|observed| - 1];
      }
    }
  }
}
