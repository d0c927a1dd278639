/** The device and the sessions through which the tasks work on it. */
module Sessions {
  import opened Platform
  import opened PkgText
  import opened Unpack
  import opened Registry
  import opened InstallModel

  class Device {
    var disk: map<string, int>
    var scr: Scr

    constructor (w: World)
      ensures State() == w
    {
      disk := w.disk;
      scr := w.scr;
    }

    function State(): World
      reads this
    {
      World(disk, scr)
    }

    /** Somebody else's installation. */
    method Apply(effect: World -> World)
      modifies this
      ensures State() == effect(old(State()))
    {
      var next := effect(State());
      disk := next.disk;
      scr := next.scr;
    }
  }

  /** A file system transaction. */
  class StsTransaction {
    var temps: Store
    var created: map<string, int>
    var removed: set<string>

    constructor (temps: Store)
      ensures Value() == Sts(temps, map[], {})
    {
      this.temps := temps;
      created := map[];
      removed := {};
    }

    function Value(): Sts
      reads this
    {
      Sts(temps, created, removed)
    }

    method RemoveL(disk: map<string, int>, path: string)
      modifies this
      ensures Value() == RemoveFile(disk, old(Value()), path)
    {
      var key := Fold(path);
      if key in created {
        created := created - {key};
      } else if key in disk {
        removed := removed + {key};
      }
    }

    method CreateNewL(disk: map<string, int>, path: string) returns (r: Outcome<()>)
      modifies this
      ensures match CreateFile(disk, old(Value()), path, 0)
              case Ok(sts) => r == Ok(()) && Value() == sts
              case Fail(f) => r == Fail(f) && Value() == old(Value())
    {
      var key := Fold(path);
      if key in temps || key in (disk - removed) + created {
        return Fail(Leave(ERR_ALREADY_EXISTS));
      }
      created := created[key := 0];
      return Ok(());
    }

    /** Appends bytes to a file of the transaction. */
    method Write(path: string, length: nat)
      requires Fold(path) in created
      modifies this`created
      ensures created == old(created)[Fold(path) := old(created)[Fold(path)] + length]
    {
      created := created[Fold(path) := created[Fold(path)] + length];
    }

    method CommitL(device: Device)
      modifies device`disk
      ensures device.disk == ViewDisk(old(device.disk), Value())
    {
      device.disk := (device.disk - removed) + created;
    }
  }

  /** A registry transaction: what it has changed so far. */
  class ScrTransaction {
    var now: Scr

    constructor (scr: Scr)
      ensures now == scr
    {
      now := scr;
    }

    method AddComponentL(infos: seq<Localized>, softwareType: string) returns (r: Outcome<int>)
      modifies this
      ensures if Named(infos) then
                && r == Ok(old(now).nextId)
                && now == Scr(old(now).comps[old(now).nextId := Component(infos, softwareType, Version(0, 0, 0), [], 0, false)], old(now).nextId + 1)
              else r == Fail(Leave(ERR_ARGUMENT)) && now == old(now)
    {
      for i := 0 to |infos|
        invariant forall j :: 0 <= j < i ==> infos[j].name != ""
        invariant now == old(now)
      {
        if infos[i].name == "" {
          return Fail(Leave(ERR_ARGUMENT));
        }
      }
      var id := now.nextId;
      now := Scr(now.comps[id := Component(infos, softwareType, Version(0, 0, 0), [], 0, false)], id + 1);
      return Ok(id);
    }

    method SetComponentVersionL(id: int, version: Version) returns (r: Outcome<()>)
      modifies this
      ensures if id in old(now).comps then r == Ok(()) && now == old(now).(comps := old(now).comps[id := old(now).comps[id].(version := version)])
              else r == Fail(Leave(ERR_NOT_FOUND)) && now == old(now)
    {
      if id !in now.comps {
        return Fail(Leave(ERR_NOT_FOUND));
      }
      now := now.(comps := now.comps[id := now.comps[id].(version := version)]);
      return Ok(());
    }

    method RegisterComponentFileL(id: int, path: string) returns (r: Outcome<()>)
      modifies this
      ensures if id in old(now).comps then r == Ok(()) && now == old(now).(comps := old(now).comps[id := old(now).comps[id].(files := old(now).comps[id].files + [path])])
              else r == Fail(Leave(ERR_NOT_FOUND)) && now == old(now)
    {
      if id !in now.comps {
        return Fail(Leave(ERR_NOT_FOUND));
      }
      now := now.(comps := now.comps[id := now.comps[id].(files := now.comps[id].files + [path])]);
      return Ok(());
    }

    method SetComponentSizeL(id: int, size: int) returns (r: Outcome<()>)
      modifies this
      ensures if id in old(now).comps then r == Ok(()) && now == old(now).(comps := old(now).comps[id := old(now).comps[id].(size := size)])
              else r == Fail(Leave(ERR_NOT_FOUND)) && now == old(now)
    {
      if id !in now.comps {
        return Fail(Leave(ERR_NOT_FOUND));
      }
      now := now.(comps := now.comps[id := now.comps[id].(size := size)]);
      return Ok(());
    }

    method SetScomoStateL(id: int, activated: bool) returns (r: Outcome<()>)
      modifies this
      ensures if id in old(now).comps then r == Ok(()) && now == old(now).(comps := old(now).comps[id := old(now).comps[id].(activated := activated)])
              else r == Fail(Leave(ERR_NOT_FOUND)) && now == old(now)
    {
      if id !in now.comps {
        return Fail(Leave(ERR_NOT_FOUND));
      }
      now := now.(comps := now.comps[id := now.comps[id].(activated := activated)]);
      return Ok(());
    }

    method DeleteComponentL(id: int) returns (r: Outcome<()>)
      modifies this
      ensures if id in old(now).comps then r == Ok(()) && now == old(now).(comps := old(now).comps - {id})
              else r == Fail(Leave(ERR_NOT_FOUND)) && now == old(now)
    {
      if id !in now.comps {
        return Fail(Leave(ERR_NOT_FOUND));
      }
      now := now.(comps := now.comps - {id});
      return Ok(());
    }

    method CommitTransactionL(device: Device)
      modifies device`scr
      ensures device.scr == now
    {
      device.scr := now;
    }
  }

  /** A list of files being worked off. */
  class FilesList {
    var left: seq<string>

    constructor ()
      ensures left == []
    {
      left := [];
    }

    method OpenListL(scr: ScrTransaction, id: int)
      modifies this
      ensures left == FilesOf(scr.now, id)
    {
      left := if id in scr.now.comps then scr.now.comps[id].files else [];
    }

    method NextFileL() returns (file: Option<string>)
      modifies this
      ensures if old(left) == [] then file == None && left == [] else file == Some(old(left)[0]) && left == old(left)[1..]
    {
      if left == [] {
        return None;
      }
      file := Some(left[0]);
      left := left[1..];
    }
  }

  /** Removes the next file, or the component when there is none. */
  method UnregisterAndDeleteFileL(scr: ScrTransaction, files: FilesList, sts: StsTransaction, disk: map<string, int>, id: int) returns (r: Outcome<bool>)
    modifies scr, files, sts
    ensures match RemoveNext(disk, old(files.left), old(scr.now), old(sts.Value()), id)
            case Ok(s) => r == Ok(s.done) && files.left == s.fileList && scr.now == s.scr && sts.Value() == s.sts
            case Fail(f) => r == Fail(f)
  {
    var file := files.NextFileL();
    if file != None {
      sts.RemoveL(disk, file.value);
    } else {
      var _ :- scr.DeleteComponentL(id);
      return Ok(true);
    }
    return Ok(false);
  }
}
