/** The container engine and the task workspaces, as far as the supervisor sees them. Every call may fail. */
module Docker {
  import opened Options
  import opened TaskTable
  import opened TaskHistory
  import opened TaskWorld

  class DockerEngine {
    var containers: Containers
    /** The stop signals and the waits for an exit that were asked for; neither is waited for. */
    var signals: seq<TaskId>
    var waits: seq<TaskId>

    constructor (containers: Containers)
      ensures this.containers == containers && signals == [] && waits == []
    {
      this.containers, signals, waits := containers, [], [];
    }

    /** Creates, then starts. The name must be free; a start that fails leaves the created container behind. */
    method Run(id: TaskId) returns (ok: bool)
      modifies this`containers
      ensures ok ==> id !in old(containers) && containers == old(containers)[id := true]
      ensures !ok ==> containers == old(containers) || (id !in old(containers) && containers == old(containers)[id := false])
    {
      ok := false;
      if id !in containers {
        if * {
          containers := containers[id := true];
          ok := true;
        } else if * {
          containers := containers[id := false];
        }
      }
    }

    method List() returns (ok: bool, listed: Containers)
      ensures listed == containers
    {
      ok, listed := *, containers;
    }

    /** Removing a container that is gone succeeds; a call that timed out may have removed it. */
    method Remove(id: TaskId) returns (ok: bool)
      modifies this`containers
      ensures containers == old(containers) - {id} || (!ok && containers == old(containers))
    {
      ok := *;
      var late: bool := *;
      if ok || late {
        containers := containers - {id};
      }
    }

    method Kill(id: TaskId) returns (ok: bool)
      modifies this`containers
      ensures containers == old(containers) || (id in old(containers) && containers == old(containers)[id := false])
      ensures ok && id in containers ==> !containers[id]
    {
      ok := *;
      var late: bool := *;
      if (ok || late) && id in containers {
        containers := containers[id := false];
      }
    }

    method Stop(id: TaskId)
      modifies this`signals
      ensures signals == old(signals) + [id]
    {
      signals := signals + [id];
    }

    method Wait(id: TaskId)
      modifies this`waits
      ensures waits == old(waits) + [id]
    {
      waits := waits + [id];
    }
  }

  class TaskWorkspace {
    var results: Results

    constructor ()
      ensures results == map[]
    {
      results := map[];
    }

    method Prepare(id: TaskId) returns (ok: bool)
      modifies this
      ensures results == old(results) || (id !in old(results) && results == old(results)[id := Unparsed])
      ensures ok ==> id in results
    {
      ok := *;
      var partly: bool := *;
      if id !in results && (ok || partly) {
        results := results[id := Unparsed];
      }
    }

    method ReadResult(id: TaskId) returns (result: Option<Outcome>)
      ensures result == ResultIn(results, id)
    {
      result := ResultIn(results, id);
    }

    method Remove(id: TaskId)
      modifies this
      ensures results == old(results) - {id}
    {
      results := results - {id};
    }
  }
}
