/** Properties relating several registry operations: the consistency the
    operations preserve, what a later lookup sees, and the duplicate hazard. */
module RegistryProperties {
  import opened Base
  import opened JsonValues
  import opened Temporal
  import opened Files
  import opened Persistent
  import opened DbName
  import opened Registry

  /** In a consistent registry at most one entry answers to a credential and name. */
  lemma ConsistentUnique(s: Server, pass: string, name: string, i: int, j: int)
    requires Consistent(s)
    requires 0 <= i < |s.entries| && Matches(s.entries[i], pass, name)
    requires 0 <= j < |s.entries| && Matches(s.entries[j], pass, name)
    ensures i == j
  {
  }

  /** Creating a database whose file no entry uses keeps the registry consistent. */
  lemma CreateKeepsConsistent(s: Server, pass: string, name: string)
    requires Consistent(s)
    requires forall i :: 0 <= i < |s.entries| ==> s.entries[i].body.path != FormatDbName(pass, name)
    ensures Consistent(Create(s, pass, name).server)
  {
    var o := Create(s, pass, name);
    if o.reply.Message? {
      var n := |s.entries|;
      forall i | 0 <= i < n ensures o.server.entries[i] == s.entries[i] {
        assert o.server.entries[..n][i] == s.entries[i];
      }
    }
  }

  /** A second create with the same credential and name succeeds, adds an
      entry that shares the first one's file, and is never found by a lookup:
      the registry is no longer consistent. */
  lemma CreateDuplicate(s: Server, pass: string, name: string)
    requires Consistent(s)
    requires FindIndex(s.entries, pass, name) >= 0
    ensures Create(s, pass, name).reply.Message?
    ensures var o := Create(s, pass, name);
            && FindIndex(o.server.entries, pass, name) == FindIndex(s.entries, pass, name)
            && !Consistent(o.server)
  {
    var i := FindIndex(s.entries, pass, name);
    var o := Create(s, pass, name);
    assert Loadable(s.disk, FormatDbName(pass, name));
    var n := |s.entries|;
    forall j | 0 <= j < n ensures o.server.entries[j] == s.entries[j] {
      assert o.server.entries[..n][j] == s.entries[j];
    }
    assert o.server.entries[i].body.path == o.server.entries[n].body.path;
  }

  /** Deleting keeps a consistent registry consistent. */
  lemma DeleteKeepsConsistent(s: Server, pass: string, name: string)
    requires Consistent(s)
    ensures Consistent(DeleteDb(s, pass, name).server)
  {
    var o := DeleteDb(s, pass, name);
    if o.reply.Message? {
      RemoveEntryConsistent(s, FindIndex(s.entries, pass, name), o.server.disk);
    }
  }

  /** Dropping entry `i` together with its file, and nothing else, keeps a
      consistent registry consistent. */
  lemma RemoveEntryConsistent(s: Server, i: int, d: Disk)
    requires Consistent(s)
    requires 0 <= i < |s.entries|
    requires d.files.Keys == s.disk.files.Keys - {s.entries[i].body.path}
    requires forall q :: q in d.files ==> d.files[q] == s.disk.files[q]
    ensures Consistent(Server(s.entries[..i] + s.entries[i + 1..], d))
  {
    var e := s.entries[..i] + s.entries[i + 1..];
    forall j | 0 <= j < |e| ensures e[j] == s.entries[if j < i then j else j + 1] {
    }
  }

  /** After a successful delete in a consistent registry the database is gone:
      a select answers not-found and its file no longer exists. */
  lemma DeleteThenSelect(s: Server, pass: string, name: string)
    requires Consistent(s)
    requires DeleteDb(s, pass, name).reply.Message?
    ensures SelectDb(DeleteDb(s, pass, name).server, pass, name).reply == NotFound(name)
    ensures FormatDbName(pass, name) !in DeleteDb(s, pass, name).server.disk.files
  {
    var o := DeleteDb(s, pass, name);
    var i := FindIndex(s.entries, pass, name);
    var e := o.server.entries;
    forall j | 0 <= j < |e| ensures !Matches(e[j], pass, name) {
      var k := if j < i then j else j + 1;
      assert e[j] == s.entries[k];
      if Matches(s.entries[k], pass, name) {
        ConsistentUnique(s, pass, name, i, k);
      }
    }
  }

  /** Updating keeps a consistent registry consistent. */
  lemma UpdateKeepsConsistent(s: Server, pass: string, name: string, payload: Storage)
    requires Consistent(s)
    ensures Consistent(UpdateDb(s, pass, name, payload).server)
  {
    var o := UpdateDb(s, pass, name, payload);
    if o.reply.Message? {
      var i := FindIndex(s.entries, pass, name);
      assert o.server.entries == s.entries[i := o.server.entries[i]];
      ReplaceEntryConsistent(s, i, o.server.entries[i], o.server.disk);
    }
  }

  /** After a successful update, a select returns exactly the payload: the
      old content is replaced, not merged. */
  lemma UpdateThenSelect(s: Server, pass: string, name: string, payload: Storage)
    requires UpdateDb(s, pass, name, payload).reply.Message?
    ensures SelectDb(UpdateDb(s, pass, name, payload).server, pass, name).reply == Snapshot(payload)
  {
    var i := FindIndex(s.entries, pass, name);
    var e := UpdateDb(s, pass, name, payload).server.entries;
    assert forall j :: 0 <= j < i ==> e[j] == s.entries[j];
  }

  /** A completed append keeps a consistent registry consistent. */
  lemma AppendKeepsConsistent(s: Server, pass: string, name: string, payload: Storage, order: seq<string>)
    requires Enumerates(order, payload)
    requires Consistent(s)
    requires AppendDb(s, pass, name, payload, order).reply.Message?
    ensures Consistent(AppendDb(s, pass, name, payload, order).server)
  {
    var o := AppendDb(s, pass, name, payload, order);
    if |payload| > 0 {
      var i := FindIndex(s.entries, pass, name);
      assert o.server.entries == s.entries[i := o.server.entries[i]];
      ReplaceEntryConsistent(s, i, o.server.entries[i], o.server.disk);
    }
  }

  /** Replacing entry `i` by one with the same identity and file, kept in
      sync, while no other file changes, keeps a consistent registry consistent. */
  lemma ReplaceEntryConsistent(s: Server, i: int, e: Entry, d: Disk)
    requires Consistent(s)
    requires 0 <= i < |s.entries|
    requires e.name == s.entries[i].name && e.pass == s.entries[i].pass
    requires e.body.path == s.entries[i].body.path
    requires Synced(d, e.body)
    requires forall q :: q in s.disk.files && q != e.body.path ==> q in d.files && d.files[q] == s.disk.files[q]
    ensures Consistent(Server(s.entries[i := e], d))
  {
  }

  /** After a completed append, a select returns the old content with the
      payload laid over it. */
  lemma AppendThenSelect(s: Server, pass: string, name: string, payload: Storage, order: seq<string>)
    requires Enumerates(order, payload)
    requires AppendDb(s, pass, name, payload, order).reply.Message?
    ensures var i := FindIndex(s.entries, pass, name);
            0 <= i &&
            SelectDb(AppendDb(s, pass, name, payload, order).server, pass, name).reply ==
              Snapshot(s.entries[i].body.store.storage + payload)
  {
    var i := FindIndex(s.entries, pass, name);
    var e := AppendDb(s, pass, name, payload, order).server.entries;
    assert forall j :: 0 <= j < i ==> e[j] == s.entries[j];
  }

  /** The lifecycle of one database: create, append `{"x": 1}`, update with
      `{"y": 2}`, select, delete, select again. */
  lemma Lifecycle(d: Disk)
    requires Writable(d, FormatDbName("secret", "alice"))
    requires FormatDbName("secret", "alice") !in d.files
    ensures var path := FormatDbName("secret", "alice");
            var x := map["x" := JNumber(1.0)];
            var y := map["y" := JNumber(2.0)];
            var s0 := Server([], d);
            var s1 := Create(s0, "secret", "alice");
            var s2 := AppendDb(s1.server, "secret", "alice", x, ["x"]);
            var s3 := UpdateDb(s2.server, "secret", "alice", y);
            var s4 := SelectDb(s3.server, "secret", "alice");
            var s5 := DeleteDb(s4.server, "secret", "alice");
            var s6 := SelectDb(s5.server, "secret", "alice");
            && s1.reply.Message? && Parse(s1.server.disk.files[path]) == Some(map[])
            && s2.reply.Message? && Parse(s2.server.disk.files[path]) == Some(x)
            && s3.reply.Message? && Parse(s3.server.disk.files[path]) == Some(y)
            && s4.reply == Snapshot(y)
            && s5.reply.Message? && path !in s5.server.disk.files
            && s6.reply == NotFound("alice")
  {
    var path := FormatDbName("secret", "alice");
    var x := map["x" := JNumber(1.0)];
    var y := map["y" := JNumber(2.0)];
    var s0 := Server([], d);
    var s1 := Create(s0, "secret", "alice");
    assert s1.server.entries[0].body.store.storage == map[];
    assert FindIndex(s1.server.entries, "secret", "alice") == 0;
    assert Enumerates(["x"], x);
    var s2 := AppendDb(s1.server, "secret", "alice", x, ["x"]);
    assert map[] + x == x;
    var s3 := UpdateDb(s2.server, "secret", "alice", y);
    UpdateThenSelect(s2.server, "secret", "alice", y);
    var s4 := SelectDb(s3.server, "secret", "alice");
    assert |s4.server.entries| == 1;
    var s5 := DeleteDb(s4.server, "secret", "alice");
    assert s5.server.entries == [];
  }
}
