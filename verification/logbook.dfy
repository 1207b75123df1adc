/**
 The in-memory logbook document of logbook-rs and its four mutators.

 A logbook maps project names to projects; a project holds an ordered
 sequence of logs, oldest first. The one invariant the mutators care about
 is that ids are dense: every log's id is its index in its project's
 sequence. Adding a log keeps that invariant and deleting a log restores it
 by renumbering every remaining log.

 Timestamps are opaque strings that the caller passes in; the model reads
 no clock.
 */
module LogbookLib {

  /** One timestamped text entry; `id` is meant to equal its position. */
  datatype Log = Log(id: nat, timestamp: string, text: string)

  /** A named, ordered list of logs. */
  datatype Project = Project(name: string, logs: seq<Log>)

  /** What a log says, without its position-dependent id. */
  datatype Entry = Entry(timestamp: string, text: string)

  /** What a mutator reports: success, a missing project, or an id out of range. */
  datatype Status = Done | NoSuchProject | InvalidId

  // ---------------------------------------------------------------------
  // Specification of a project's log sequence
  // ---------------------------------------------------------------------

  /** Dense ids: the id of every log is its index. */
  predicate Dense(logs: seq<Log>)
  {
    forall i :: 0 <= i < |logs| ==> logs[i].id == i
  }

  /** The timestamps and texts of the logs, in order. */
  function Entries(logs: seq<Log>): (es: seq<Entry>)
    ensures |es| == |logs|
    ensures forall i :: 0 <= i < |logs| ==>
      es[i].timestamp == logs[i].timestamp && es[i].text == logs[i].text
  {
    seq(|logs|, i requires 0 <= i < |logs| => Entry(logs[i].timestamp, logs[i].text))
  }

  /** The sequence with position `k` taken out, everything after it shifted down by one. */
  function RemoveAt<T>(s: seq<T>, k: nat): (r: seq<T>)
    requires k < |s|
    ensures |r| == |s| - 1
    ensures forall i :: 0 <= i < k ==> r[i] == s[i]
    ensures forall i :: k <= i < |r| ==> r[i] == s[i + 1]
  {
    s[..k] + s[k + 1..]
  }

  /** Every log given the id of its index; timestamps, texts and order are kept. */
  function Renumbered(logs: seq<Log>): (r: seq<Log>)
    ensures |r| == |logs|
    ensures Dense(r)
    ensures Entries(r) == Entries(logs)
    ensures Dense(logs) ==> r == logs
  {
    seq(|logs|, i requires 0 <= i < |logs| => logs[i].(id := i))
  }

  /** A fresh project under `name`, with no logs. */
  function EmptyProject(name: string): (p: Project)
    ensures p.name == name && |p.logs| == 0
  {
    Project(name, [])
  }

  /**
   The project after one log with the given timestamp and text is appended;
   its id is the number of logs before it.
   */
  function AddLogTo(p: Project, timestamp: string, text: string): (r: Project)
    ensures r.name == p.name
    ensures |r.logs| == |p.logs| + 1 && r.logs[..|p.logs|] == p.logs
    ensures r.logs[|p.logs|].id == |p.logs|
    ensures Entries(r.logs) == Entries(p.logs) + [Entry(timestamp, text)]
    ensures Dense(p.logs) ==> Dense(r.logs)
  {
    p.(logs := p.logs + [Log(|p.logs|, timestamp, text)])
  }

  /**
   The project after the log at position `k` is removed and the remaining
   logs are renumbered: dense whatever the ids were before, and the entries
   are the old ones with position `k` taken out.
   */
  function DeleteLogFrom(p: Project, k: nat): (r: Project)
    requires k < |p.logs|
    ensures r.name == p.name
    ensures |r.logs| == |p.logs| - 1
    ensures Dense(r.logs)
    ensures Entries(r.logs) == RemoveAt(Entries(p.logs), k)
  {
    p.(logs := Renumbered(RemoveAt(p.logs, k)))
  }

  /** Removing position `k` commutes with forgetting the ids. */
  lemma EntriesRemoveAt(logs: seq<Log>, k: nat)
    requires k < |logs|
    ensures Entries(RemoveAt(logs, k)) == RemoveAt(Entries(logs), k)
  {
  }

  /** The projects after adding logs with `entries`, one by one, in order. */
  function AddLogs(p: Project, entries: seq<Entry>): (r: Project)
    ensures r.name == p.name
    ensures |r.logs| == |p.logs| + |entries|
    ensures r.logs[..|p.logs|] == p.logs
    ensures Entries(r.logs) == Entries(p.logs) + entries
    ensures Dense(p.logs) ==> Dense(r.logs)
    decreases |entries|
  {
    if entries == [] then p
    else
      var q := AddLogTo(p, entries[0].timestamp, entries[0].text);
      var r := AddLogs(q, entries[1..]);
      assert q.logs[..|p.logs|] == p.logs;
      assert r.logs[..|p.logs|] == r.logs[..|q.logs|][..|p.logs|];
      assert Entries(p.logs) + entries == Entries(p.logs) + [entries[0]] + entries[1..];
      r
  }

  /**
   Logging into a fresh project, one call per entry, gives ids 0 .. n-1 in
   call order, each with the timestamp and text it was given.
   */
  lemma AddLogsToEmpty(name: string, entries: seq<Entry>)
    ensures AddLogs(EmptyProject(name), entries).logs
         == seq(|entries|, i requires 0 <= i < |entries| =>
                  Log(i, entries[i].timestamp, entries[i].text))
  {
    var logs := AddLogs(EmptyProject(name), entries).logs;
    assert |logs| == |entries|;
    forall i | 0 <= i < |logs|
      ensures logs[i] == Log(i, entries[i].timestamp, entries[i].text)
    {
      assert Entries(logs)[i] == entries[i];
    }
  }

  /** Deleting the log that was just added gives back the project, when its ids were dense. */
  lemma DeleteUndoesAdd(p: Project, timestamp: string, text: string)
    requires Dense(p.logs)
    ensures DeleteLogFrom(AddLogTo(p, timestamp, text), |p.logs|) == p
  {
  }

  /** Deleting a log keeps the logs in front of it exactly as they were, ids included, when ids were dense. */
  lemma DeleteKeepsPrefix(p: Project, k: nat)
    requires Dense(p.logs) && k < |p.logs|
    ensures DeleteLogFrom(p, k).logs[..k] == p.logs[..k]
  {
  }

  /**
   The renumbering loop: walks the logs in order and overwrites each id
   with its index.
   */
  method Renumber(logs: seq<Log>) returns (r: seq<Log>)
    ensures r == Renumbered(logs)
  {
    r := logs;
    var index := 0;
    while index < |r|
      invariant index <= |r| == |logs|
      invariant forall j :: 0 <= j < index ==> r[j] == logs[j].(id := j)
      invariant forall j :: index <= j < |r| ==> r[j] == logs[j]
    {
      r := r[index := r[index].(id := index)];
      index := index + 1;
    }
  }

  // ---------------------------------------------------------------------
  // The logbook document
  // ---------------------------------------------------------------------

  /** The root document: a creation timestamp and the projects by name. */
  class Logbook {
    var createdAt: string
    var projects: map<string, Project>

    /** Each project is stored under its own name and has dense ids. */
    ghost predicate Valid()
      reads this
    {
      forall name :: name in projects ==>
        projects[name].name == name && Dense(projects[name].logs)
    }

    /** A fresh document: no projects, created at `createdAt`. */
    constructor (createdAt: string)
      ensures this.createdAt == createdAt
      ensures projects == map[]
      ensures Valid()
    {
      this.createdAt := createdAt;
      projects := map[];
    }

    /** Puts an empty project under `name`, silently replacing one already there. */
    method AddProject(name: string)
      modifies this
      ensures createdAt == old(createdAt)
      ensures projects == old(projects)[name := EmptyProject(name)]
      ensures old(Valid()) ==> Valid()
    {
      projects := projects[name := Project(name, [])];
    }

    /**
     Appends a log to the named project, with the next dense id. A missing
     project is reported and nothing changes.
     */
    method AddLog(project: string, timestamp: string, text: string) returns (status: Status)
      modifies this
      ensures createdAt == old(createdAt)
      ensures project !in old(projects) ==> status == NoSuchProject && projects == old(projects)
      ensures project in old(projects) ==>
        status == Done &&
        projects == old(projects)[project := AddLogTo(old(projects)[project], timestamp, text)]
      ensures project in old(projects) ==>
        var before, after := old(projects)[project].logs, projects[project].logs;
        |after| == |before| + 1 && after[..|before|] == before &&
        after[|before|] == Log(|before|, timestamp, text)
      ensures projects.Keys == old(projects).Keys
      ensures old(Valid()) ==> Valid()
    {
      if project !in projects {
        return NoSuchProject;
      }
      var p := projects[project];
      var log := Log(|p.logs|, timestamp, text);
      p := p.(logs := p.logs + [log]);
      projects := projects[project := p];
      status := Done;
    }

    /**
     Removes the log at position `id` from the named project and renumbers
     the rest. A missing project or an id out of range is reported and
     nothing changes, ids included.
     */
    method DeleteLog(project: string, id: nat) returns (status: Status)
      modifies this
      ensures createdAt == old(createdAt)
      ensures project !in old(projects) ==> status == NoSuchProject && projects == old(projects)
      ensures project in old(projects) && id >= |old(projects)[project].logs| ==>
        status == InvalidId && projects == old(projects)
      ensures project in old(projects) && id < |old(projects)[project].logs| ==>
        status == Done &&
        projects == old(projects)[project := DeleteLogFrom(old(projects)[project], id)] &&
        Dense(projects[project].logs) &&
        Entries(projects[project].logs) == RemoveAt(Entries(old(projects)[project].logs), id)
      ensures projects.Keys == old(projects).Keys
      ensures old(Valid()) ==> Valid()
    {
      if project !in projects {
        return NoSuchProject;
      }
      var p := projects[project];
      if id >= |p.logs| {
        return InvalidId;
      }
      var remaining := RemoveAt(p.logs, id);
      remaining := Renumber(remaining);
      projects := projects[project := p.(logs := remaining)];
      status := Done;
    }

    /** Removes the named project, or reports that there is none. */
    method DeleteProject(name: string) returns (status: Status)
      modifies this
      ensures createdAt == old(createdAt)
      ensures status == (if name in old(projects) then Done else NoSuchProject)
      ensures projects == old(projects) - {name}
      ensures old(Valid()) ==> Valid()
    {
      if name in projects {
        projects := projects - {name};
        status := Done;
      } else {
        status := NoSuchProject;
      }
    }
  }

  /** Adding a project that was not there and then deleting it gives back the same projects. */
  lemma DeleteProjectUndoesAdd(projects: map<string, Project>, name: string)
    requires name !in projects
    ensures projects[name := EmptyProject(name)] - {name} == projects
  {
  }

  /**
   On a valid logbook, logging into a project and then deleting the log at
   the project's old length gives back the same projects; with no such
   project both calls change nothing.
   */
  method AddThenDeleteLog(book: Logbook, project: string, timestamp: string, text: string)
    requires book.Valid()
    modifies book
    ensures book.projects == old(book.projects)
    ensures book.Valid()
  {
    var n := if project in book.projects then |book.projects[project].logs| else 0;
    var added := book.AddLog(project, timestamp, text);
    var deleted := book.DeleteLog(project, n);
    if project in old(book.projects) {
      DeleteUndoesAdd(old(book.projects)[project], timestamp, text);
    }
  }

  /** A short session: what a caller can conclude from the mutators' contracts alone. */
  method Session()
  {
    var book := new Logbook("1700000000000");
    book.AddProject("work");
    var s := book.AddLog("work", "1700000000001", "wrote spec");
    assert s == Done;
    s := book.AddLog("work", "1700000000002", "reviewed PR");
    assert book.projects["work"].logs
        == [Log(0, "1700000000001", "wrote spec"), Log(1, "1700000000002", "reviewed PR")];
    s := book.DeleteLog("work", 5);
    assert s == InvalidId;
    s := book.DeleteLog("work", 0);
    assert s == Done;
    assert book.projects["work"].logs == [Log(0, "1700000000002", "reviewed PR")];
    s := book.AddLog("home", "1700000000003", "nothing here");
    assert s == NoSuchProject;
    s := book.DeleteProject("work");
    assert s == Done && book.projects == map[];
    assert book.Valid();
  }
}
