/**
 * The user's external MCP servers, kept in a settings file that also holds servers the application
 * never wrote: a sidecar records the names it owns, and each sync removes those before it merges the
 * servers enabled now. The `specrails` server is managed separately and left alone. The settings file is
 * written before the sidecar, so that a crash can leave the one new and the other old.
 */
module ExternalMcpSync {
  import opened Wrappers

  const SPECRAILS := "specrails"

  type Config = string
  type Servers = map<string, Config>

  datatype Server = Server(name: string, config: Config)

  /** The parsed settings file; `rest` is everything but `mcpServers`. */
  datatype Document = Document(servers: Servers, rest: map<string, string>)

  datatype Op =
    | Sync(external: seq<Server>)
    | MergeSpecrails(entry: Config)

  /** What a list of servers writes: the last config of each name but `specrails`. */
  function Entries(external: seq<Server>): Servers {
    if external == [] then
      map[]
    else
      var init, last := external[..|external| - 1], external[|external| - 1];
      if last.name == SPECRAILS then Entries(init) else Entries(init)[last.name := last.config]
  }

  function Names(external: seq<Server>): seq<string> {
    if external == [] then
      []
    else
      var init, last := external[..|external| - 1], external[|external| - 1];
      if last.name == SPECRAILS then Names(init) else Names(init) + [last.name]
  }

  function NameSet(names: seq<string>): set<string> {
    set k | 0 <= k < |names| :: names[k]
  }

  lemma {:induction false} EntriesAreNames(external: seq<Server>)
    ensures Entries(external).Keys == NameSet(Names(external))
    ensures SPECRAILS !in Entries(external)
  {
    if external == [] {
      assert NameSet(Names(external)) == {};
    } else {
      var init, last := external[..|external| - 1], external[|external| - 1];
      EntriesAreNames(init);
      if last.name != SPECRAILS {
        NameSetAppend(Names(init), last.name);
      }
    }
  }

  lemma NameSetAppend(names: seq<string>, name: string)
    ensures NameSet(names + [name]) == NameSet(names) + {name}
  {
    var longer := names + [name];
    assert longer[|names|] == name;
    assert forall k :: 0 <= k < |names| ==> longer[k] == names[k];
    forall x | x in NameSet(names) ensures x in NameSet(longer) {
      var k :| 0 <= k < |names| && names[k] == x;
      assert longer[k] == x;
    }
  }

  /** The server at `k` is the last of its name. */
  predicate IsLast(external: seq<Server>, k: nat) {
    k < |external| && forall j | k < j < |external| :: external[j].name != external[k].name
  }

  lemma {:induction false} LastOfNameCounts(external: seq<Server>, k: nat)
    requires IsLast(external, k) && external[k].name != SPECRAILS
    ensures external[k].name in Entries(external) && Entries(external)[external[k].name] == external[k].config
  {
    var init, last := external[..|external| - 1], external[|external| - 1];
    if k < |init| {
      assert last.name != external[k].name;
      assert init[k] == external[k];
      LastOfNameCounts(init, k);
    }
  }

  lemma {:induction false} NamedExactly(external: seq<Server>, name: string)
    ensures name in Names(external) <==>
              name != "specrails" && exists k :: 0 <= k < |external| && external[k].name == name
  {
    if external != [] {
      var init, last := external[..|external| - 1], external[|external| - 1];
      NamedExactly(init, name);
      if name in Names(init) {
        var k :| 0 <= k < |init| && init[k].name == name;
        assert external[k].name == name;
      }
      if last.name == name { assert external[|init|].name == name; }
      if k :| 0 <= k < |external| && external[k].name == name {
        if k < |init| { assert init[k].name == name; }
      }
    }
  }

  /** A name that nothing listed and nothing owned has: the file keeps it. `specrails` is neither. */
  ghost predicate IsForeign(name: string, owned: seq<string>, external: seq<Server>) {
    name == "specrails" || (name !in owned && forall k | 0 <= k < |external| :: external[k].name != name)
  }

  /** Listed servers are in with the last config of their name, other owned ones are out, the rest is as it was. */
  ghost predicate SyncsExactly(before: Servers, owned: seq<string>, external: seq<Server>, after: Servers) {
    && (forall k: nat | IsLast(external, k) && external[k].name != "specrails" ::
          external[k].name in after && after[external[k].name] == external[k].config)
    && (forall name | name in after ::
          IsForeign(name, owned, external) || exists k :: 0 <= k < |external| && external[k].name == name)
    && (forall name | IsForeign(name, owned, external) ::
          (name in after <==> name in before) && (name in before ==> after[name] == before[name]))
  }

  lemma SyncedExactly(before: Servers, owned: seq<string>, external: seq<Server>)
    ensures SyncsExactly(before, owned, external, Synced(before, owned, external))
  {
    EntriesAreNames(external);
    var after := Synced(before, owned, external);
    forall k: nat | IsLast(external, k) && external[k].name != "specrails"
      ensures external[k].name in after && after[external[k].name] == external[k].config
    {
      LastOfNameCounts(external, k);
    }
    forall name
      ensures name in Entries(external) <==>
                name != "specrails" && exists k :: 0 <= k < |external| && external[k].name == name
    {
      NamedExactly(external, name);
    }
  }

  lemma NextEntry(external: seq<Server>, i: nat)
    requires i < |external|
    ensures var server, done := external[i], external[..i];
            if server.name == SPECRAILS then
              Entries(external[..i + 1]) == Entries(done) && Names(external[..i + 1]) == Names(done)
            else
              && Entries(external[..i + 1]) == Entries(done)[server.name := server.config]
              && Names(external[..i + 1]) == Names(done) + [server.name]
  {
    assert external[..i + 1][..i] == external[..i] && external[..i + 1][i] == external[i];
  }

  /** The names a sync takes out: all it owns but `specrails`. */
  function Removable(owned: seq<string>): set<string> {
    NameSet(owned) - {SPECRAILS}
  }

  /** What a sync makes of the servers in the file. */
  function Synced(servers: Servers, owned: seq<string>, external: seq<Server>): Servers {
    (servers - Removable(owned)) + Entries(external)
  }

  /** The settings file and its sidecar; a missing or corrupt one is `None`. */
  class Settings {
    var file: Option<Document>
    var sidecar: Option<seq<string>>

    constructor (file: Option<Document>)
      ensures this.file == file && this.sidecar == None
    {
      this.file, this.sidecar := file, None;
    }

    function Current(): Document
      reads `file
    {
      file.GetOr(Document(map[], map[]))
    }

    function Owned(): seq<string>
      reads `sidecar
    {
      sidecar.GetOr([])
    }

    /** Take the owned names out, put the listed servers in. */
    method NextServers(servers: Servers, owned: seq<string>, external: seq<Server>)
      returns (next: Servers, nextOwned: seq<string>)
      ensures next == Synced(servers, owned, external) && nextOwned == Names(external)
    {
      next := servers;
      var i := 0;
      while i < |owned|
        invariant i <= |owned|
        invariant next == servers - Removable(owned[..i])
      {
        assert owned[..i + 1] == owned[..i] + [owned[i]];
        NameSetAppend(owned[..i], owned[i]);
        if owned[i] != SPECRAILS {
          next := next - {owned[i]};
        }
        i := i + 1;
      }
      assert owned[..i] == owned;
      ghost var cleaned := next;
      nextOwned := [];
      i := 0;
      while i < |external|
        invariant i <= |external|
        invariant next == cleaned + Entries(external[..i])
        invariant nextOwned == Names(external[..i])
      {
        var server := external[i];
        NextEntry(external, i);
        if server.name != SPECRAILS {
          next := next[server.name := server.config];
          nextOwned := nextOwned + [server.name];
        }
        i := i + 1;
      }
      assert external[..i] == external;
    }

    /**
     * One sync; `whole` is false when a crash falls between its two writes, and then the new file stands
     * beside the old sidecar.
     */
    method SyncExternalServers(external: seq<Server>, whole: bool)
      modifies this
      ensures old(Owned()) == [] && external == [] ==> file == old(file) && sidecar == old(sidecar)
      ensures Current().servers == Synced(old(Current()).servers, old(Owned()), external)
      ensures Current().rest == old(Current()).rest
      ensures if whole then Owned() == Names(external) else sidecar == old(sidecar)
      ensures SyncsExactly(old(Current()).servers, old(Owned()), external, Current().servers)
      ensures whole ==> forall name :: name in Owned() <==>
                name != "specrails" && exists k :: 0 <= k < |external| && external[k].name == name
    {
      SyncedExactly(Current().servers, Owned(), external);
      forall name ensures name in Names(external) <==>
                name != "specrails" && exists k :: 0 <= k < |external| && external[k].name == name
      {
        NamedExactly(external, name);
      }
      var owned := Owned();
      if owned == [] && external == [] {
        return;
      }
      var current := Current();
      var servers, nextOwned := NextServers(current.servers, owned, external);
      file := Some(Document(servers, current.rest));
      if whole {
        sidecar := Some(nextOwned);
      }
    }

    method MergeServer(entry: Config)
      modifies `file
      ensures Current() == old(Current()).(servers := old(Current()).servers[SPECRAILS := entry])
    {
      var current := Current();
      file := Some(current.(servers := current.servers[SPECRAILS := entry]));
    }

    /** One more operation after a history. */
    method Perform(ghost base: Servers, ghost owned: seq<string>, ghost history: seq<Op>, op: Op)
      requires Current().servers == ServersFrom(base, owned, history) && Owned() == OwnedFrom(owned, history)
      modifies this
      ensures Current().servers == ServersFrom(base, owned, history + [op])
      ensures Owned() == OwnedFrom(owned, history + [op])
      ensures Current().rest == old(Current()).rest
    {
      match op
      case Sync(external) =>
        NextSync(base, owned, history, external);
        SyncExternalServers(external, true);
      case MergeSpecrails(entry) =>
        NextMerge(base, owned, history, entry);
        MergeServer(entry);
    }

    /**
     * Whatever is owned to begin with and whatever the history of syncs and merges: the file holds the
     * original servers minus every name owned then or synced since, plus the last list; the sidecar
     * holds the last list's names; and `specrails` is what the last merge made it.
     */
    method Run(ops: seq<Op>)
      modifies this
      ensures Current().servers == ServersFrom(old(Current()).servers, old(Owned()), ops)
      ensures Current().rest == old(Current()).rest
      ensures Owned() == OwnedFrom(old(Owned()), ops)
    {
      var base, owned := Current().servers, Owned();
      var i := 0;
      assert ops[..0] == [];
      while i < |ops|
        invariant i <= |ops|
        invariant Current().servers == ServersFrom(base, owned, ops[..i])
        invariant Current().rest == old(Current()).rest
        invariant Owned() == OwnedFrom(owned, ops[..i])
      {
        ghost var done := ops[..i];
        Perform(base, owned, done, ops[i]);
        i := i + 1;
        assert ops[..i] == done + [ops[i - 1]];
      }
      assert ops[..i] == ops;
    }

    /**
     * A sync that a crash interrupts between its two writes, and whatever comes later, at least one sync
     * in it. Of the interrupted list exactly the names that nothing owned then, and that no later sync
     * lists, are in the file although nothing owns them; and `UnownedForEver` says that nothing will.
     */
    method InterruptedThen(external: seq<Server>, later: seq<Op>)
      requires AnySync(later)
      modifies this
      ensures Owned() == Names(LastSync(later)) && Current().rest == old(Current()).rest
      ensures forall n :: n in Entries(external) ==>
                (n in Current().servers && n !in Owned() <==> n !in old(Owned()) && n !in Used(later))
      ensures forall n :: n in Entries(external) && n in Current().servers && n !in Owned() ==>
                Current().servers[n] == Entries(external)[n]
    {
      ghost var base, owned := Current().servers, Owned();
      SyncExternalServers(external, false);
      Run(later);
      forall n | n in Entries(external)
        ensures n in Current().servers && n !in Owned() <==> n !in owned && n !in Used(later)
        ensures n in Current().servers && n !in Owned() ==> Current().servers[n] == Entries(external)[n]
      {
        UnownedExactly(base, owned, external, later, n);
      }
    }
  }

  function LastSync(ops: seq<Op>): seq<Server> {
    if ops == [] then []
    else
      var last := ops[|ops| - 1];
      if last.Sync? then last.external else LastSync(ops[..|ops| - 1])
  }

  /** Every name that any of the syncs wrote. */
  function Used(ops: seq<Op>): set<string> {
    if ops == [] then {}
    else
      var last := ops[|ops| - 1];
      Used(ops[..|ops| - 1]) + if last.Sync? then Entries(last.external).Keys else {}
  }

  function LastMerge(ops: seq<Op>): Servers {
    if ops == [] then map[]
    else
      var last := ops[|ops| - 1];
      if last.MergeSpecrails? then map[SPECRAILS := last.entry] else LastMerge(ops[..|ops| - 1])
  }

  predicate AnySync(ops: seq<Op>) {
    exists k :: 0 <= k < |ops| && ops[k].Sync?
  }

  function OwnedFrom(owned: seq<string>, ops: seq<Op>): seq<string> {
    if AnySync(ops) then Names(LastSync(ops)) else owned
  }

  /** What a history of syncs and merges makes of a file whose sidecar says `owned`. */
  function ServersFrom(base: Servers, owned: seq<string>, ops: seq<Op>): Servers {
    (base - (if AnySync(ops) then Removable(owned) else {}) - Used(ops)) + LastMerge(ops) + Entries(LastSync(ops))
  }

  /** The same where nothing is owned to begin with. */
  function ServersAfter(base: Servers, ops: seq<Op>): Servers {
    (base - Used(ops)) + LastMerge(ops) + Entries(LastSync(ops))
  }

  lemma NothingOwned(base: Servers, ops: seq<Op>)
    ensures ServersFrom(base, [], ops) == ServersAfter(base, ops)
  {
    assert NameSet([]) == {};
  }

  lemma {:induction false} NoSyncNothingUsed(ops: seq<Op>)
    requires !AnySync(ops)
    ensures Used(ops) == {} && LastSync(ops) == []
  {
    if ops != [] {
      var init := ops[..|ops| - 1];
      assert !ops[|ops| - 1].Sync?;
      forall k | 0 <= k < |init| ensures !init[k].Sync? { assert ops[k] == init[k]; }
      NoSyncNothingUsed(init);
    }
  }

  lemma {:induction false} HistoryFacts(ops: seq<Op>)
    ensures SPECRAILS !in Used(ops) && Entries(LastSync(ops)).Keys <= Used(ops)
    ensures LastMerge(ops).Keys <= {SPECRAILS}
  {
    if ops == [] {
    } else {
      HistoryFacts(ops[..|ops| - 1]);
      var last := ops[|ops| - 1];
      if last.Sync? { EntriesAreNames(last.external); }
    }
  }

  lemma DropOwned(free: Servers, merged: Servers, entries: Servers)
    requires entries.Keys !! free.Keys && entries.Keys !! merged.Keys
    ensures (free + merged + entries) - entries.Keys == free + merged
  {
  }

  lemma OverwriteFreed(free: Servers, merged: Servers, entries: Servers)
    requires entries.Keys !! merged.Keys
    ensures (free - entries.Keys) + merged + entries == free + merged + entries
  {
  }

  lemma OneMoreOp(ops: seq<Op>, op: Op)
    ensures (ops + [op])[..|ops|] == ops && (ops + [op])[|ops|] == op
    ensures AnySync(ops + [op]) <==> AnySync(ops) || op.Sync?
  {
    var longer := ops + [op];
    assert longer[|ops|] == op;
    if AnySync(ops) {
      var k :| 0 <= k < |ops| && ops[k].Sync?;
      assert longer[k].Sync?;
    }
    if AnySync(longer) && !op.Sync? {
      var k :| 0 <= k < |longer| && longer[k].Sync?;
      assert ops[k].Sync?;
    }
  }

  lemma NextSync(base: Servers, owned: seq<string>, ops: seq<Op>, external: seq<Server>)
    ensures ServersFrom(base, owned, ops + [Sync(external)]) ==
              Synced(ServersFrom(base, owned, ops), OwnedFrom(owned, ops), external)
    ensures OwnedFrom(owned, ops + [Sync(external)]) == Names(external)
  {
    OneMoreOp(ops, Sync(external));
    HistoryFacts(ops);
    EntriesAreNames(LastSync(ops));
    EntriesAreNames(external);
    var merged, last, next := LastMerge(ops), Entries(LastSync(ops)), Entries(external);
    if AnySync(ops) {
      assert Removable(Names(LastSync(ops))) == last.Keys;
      LaterSync(base, Removable(owned), Used(ops), merged, last, next);
    } else {
      NoSyncNothingUsed(ops);
      FirstSync(base, merged, Removable(owned), next);
    }
  }

  lemma LaterSync(base: Servers, gone: set<string>, used: set<string>, merged: Servers, last: Servers, next: Servers)
    requires merged.Keys <= {SPECRAILS} && SPECRAILS !in last && SPECRAILS !in next && last.Keys <= used
    ensures (base - gone - (used + next.Keys)) + merged + next
         == (((base - gone - used) + merged + last) - last.Keys) + next
  {
    var free := base - gone - used;
    DropOwned(free, merged, last);
    OverwriteFreed(free, merged, next);
    assert base - gone - (used + next.Keys) == free - next.Keys;
  }

  lemma FirstSync(base: Servers, merged: Servers, gone: set<string>, next: Servers)
    requires merged.Keys <= {SPECRAILS} && SPECRAILS !in gone && SPECRAILS !in next
    ensures (base - gone - ({} + next.Keys)) + merged + next == (((base - {} - {}) + merged + map[]) - gone) + next
  {
  }

  lemma NextMerge(base: Servers, owned: seq<string>, ops: seq<Op>, entry: Config)
    ensures ServersFrom(base, owned, ops + [MergeSpecrails(entry)]) == ServersFrom(base, owned, ops)[SPECRAILS := entry]
    ensures OwnedFrom(owned, ops + [MergeSpecrails(entry)]) == OwnedFrom(owned, ops)
  {
    OneMoreOp(ops, MergeSpecrails(entry));
    HistoryFacts(ops);
    var gone := if AnySync(ops) then Removable(owned) else {};
    MergeOver(base - gone - Used(ops), LastMerge(ops), Entries(LastSync(ops)), entry);
  }

  lemma MergeOver(free: Servers, merged: Servers, entries: Servers, entry: Config)
    requires merged.Keys <= {SPECRAILS} && SPECRAILS !in entries
    ensures free + map[SPECRAILS := entry] + entries == (free + merged + entries)[SPECRAILS := entry]
  {
  }

  /**
   * The history leaves no trace exactly when every name ever synced is free in the original file or
   * is in the last list: then the file is the original plus the last merge and the last list.
   */
  lemma HistoryIndependentExactly(base: Servers, ops: seq<Op>)
    ensures ServersAfter(base, ops) == base + LastMerge(ops) + Entries(LastSync(ops)) <==>
              Used(ops) * base.Keys <= Entries(LastSync(ops)).Keys
  {
    HistoryFacts(ops);
    var kept, plain := ServersAfter(base, ops), base + LastMerge(ops) + Entries(LastSync(ops));
    if !(Used(ops) * base.Keys <= Entries(LastSync(ops)).Keys) {
      var name :| name in Used(ops) * base.Keys && name !in Entries(LastSync(ops));
      assert name in plain && name !in kept;
    } else {
      forall name ensures name in kept <==> name in plain {
        assert name in base && name in Used(ops) ==> name in Used(ops) * base.Keys;
      }
    }
  }

  /** No history of syncs removes or overwrites `specrails`: only a merge writes it. */
  lemma SpecrailsIsLeftAlone(base: Servers, ops: seq<Op>)
    ensures LastMerge(ops) == map[] ==>
              (SPECRAILS in ServersAfter(base, ops) <==> SPECRAILS in base) &&
              (SPECRAILS in base ==> ServersAfter(base, ops)[SPECRAILS] == base[SPECRAILS])
    ensures LastMerge(ops) != map[] ==>
              SPECRAILS in LastMerge(ops) && SPECRAILS in ServersAfter(base, ops) &&
              ServersAfter(base, ops)[SPECRAILS] == LastMerge(ops)[SPECRAILS]
  {
    HistoryFacts(ops);
    if LastMerge(ops) != map[] {
      assert LastMerge(ops).Keys != {};
    }
  }

  lemma InNameSet(names: seq<string>, n: string)
    ensures n in NameSet(names) <==> n in names
  {
  }

  /** After an interrupted sync and a later one: which names of the interrupted list are there, and unowned. */
  lemma UnownedExactly(base: Servers, owned: seq<string>, external: seq<Server>, later: seq<Op>, n: string)
    requires n in Entries(external) && AnySync(later)
    ensures var servers := ServersFrom(Synced(base, owned, external), owned, later);
            && (n in servers && n !in OwnedFrom(owned, later) <==> n !in owned && n !in Used(later))
            && (n in servers && n !in OwnedFrom(owned, later) ==> servers[n] == Entries(external)[n])
  {
    EntriesAreNames(external);
    HistoryFacts(later);
    EntriesAreNames(LastSync(later));
    InNameSet(owned, n);
    InNameSet(Names(LastSync(later)), n);
  }

  /** Such a name stays through any history that does not list it again, with the config it had. */
  lemma UnownedForEver(servers: Servers, owned: seq<string>, ops: seq<Op>, n: string)
    requires n in servers && n !in owned && n !in Used(ops) && n != SPECRAILS
    ensures n in ServersFrom(servers, owned, ops) && n !in OwnedFrom(owned, ops)
    ensures ServersFrom(servers, owned, ops)[n] == servers[n]
  {
    HistoryFacts(ops);
    EntriesAreNames(LastSync(ops));
    InNameSet(owned, n);
    InNameSet(Names(LastSync(ops)), n);
  }

  /** A crash in the first sync ever, and then the one server it wrote is disabled: it stays enabled. */
  method DisabledServerStays(server: Server) returns (s: Settings)
    requires server.name != SPECRAILS
    ensures s.Owned() == [] && server.name in s.Current().servers
    ensures s.Current().servers[server.name] == server.config
  {
    s := new Settings(None);
    var list, later := [server], [Sync([])];
    assert list[..0] == [] && Entries(list) == map[server.name := server.config];
    assert later[0].Sync? && later[..0] == [] && Used(later) == {};
    s.InterruptedThen(list, later);
  }
}
