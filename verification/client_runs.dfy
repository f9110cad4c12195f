/**
  Whole runs of a client: calls of the two memory managers, and loads and stores between
  them. The client sees the plain machine together with the contents of the frames it owns.
*/
module ClientRuns {
  import opened BootInformation
  import opened Bits
  import opened RadixTree
  import opened Paging
  import opened PlainPaging
  import Clients

  datatype Program = Program(plain: Plain, data: map<nat, Table>)

  datatype Action =
    | Call(op: Op)
    | Load(page: nat, index: nat)
    | Store(page: nat, index: nat, word: Word)

  datatype Outcome = Replied(reply: Reply) | Loaded(value: Option<Word>) | Stored(ok: bool)

  /** Frames that stay owned keep their contents; a frame just allocated may hold anything. */
  ghost predicate Undisturbed(s: Program, s': Program) {
    && s'.data.Keys == s'.plain.owned
    && forall f :: f in s.plain.owned && f in s'.plain.owned && f in s.data ==> s'.data[f] == s.data[f]
  }

  /** The frame that a store through the page would change, if there is no fault. */
  ghost function Writable(identity: map<nat, Translation>, s: Plain, page: nat): Option<nat> {
    match Seen(identity, s, page)
    case None => None
    case Some(t) => if t.write then Some(t.frame) else None
  }

  /** One action: what the client gets, and what it then sees. Frames it does not own may hold anything. */
  ghost predicate Acts(m: Machine, identity: map<nat, Translation>, s: Program, action: Action, s': Program, outcome: Outcome) {
    match action
    case Call(op) =>
      outcome.Replied? && Steps(m, s.plain, op, s'.plain, outcome.reply) && Undisturbed(s, s')
    case Load(page, index) =>
      && s' == s && outcome.Loaded?
      && (outcome.value.Some? <==> Seen(identity, s.plain, page).Some?)
      && (outcome.value.Some? && Seen(identity, s.plain, page).value.frame in s.data && index < ENTRIES ==>
            outcome.value.value == s.data[Seen(identity, s.plain, page).value.frame][index])
    case Store(page, index, word) =>
      var target := Writable(identity, s.plain, page);
      && outcome == Stored(target.Some?) && s'.plain == s.plain
      && s'.data == if target.Some? && target.value in s.data && index < ENTRIES
                    then s.data[target.value := s.data[target.value][index := word]] else s.data
  }

  /** The contract: what it is for calls, and stores only to owned frames. */
  ghost predicate Allowed(m: Machine, identity: map<nat, Translation>, s: Plain, action: Action) {
    match action
    case Call(op) => Legal(m, s, op)
    case Load(page, index) => page < VIRTUAL_PAGES && index < ENTRIES
    case Store(page, index, word) =>
      && page < VIRTUAL_PAGES && index < ENTRIES
      && (Writable(identity, s, page).Some? ==> Writable(identity, s, page).value in s.owned)
  }

  // ---------------------------------------------------------------- one action

  /** The real machine is in a good state that stands for `s`, word for word. */
  ghost predicate Embodies(k: PageTables, m: Machine, identity: map<nat, Translation>, s: Program)
    reads k, k.tablePages, k.pmm, k.pmm.eligible, k.pmm.inUse
  {
    Represents(k, m, identity, s.plain) && Holds(k.ram, s)
  }

  ghost predicate Holds(ram: Ram, s: Program) {
    s.data.Keys == s.plain.owned && forall f :: f in s.data ==> f < PAGE_COUNT && ram[f] == s.data[f]
  }

  ghost function Contents(ram: Ram, owned: set<nat>): map<nat, Table> {
    map f | f in owned && f < PAGE_COUNT :: ram[f]
  }

  lemma HoldsContents(k: PageTables, m: Machine, identity: map<nat, Translation>, s: Plain)
    requires Represents(k, m, identity, s)
    ensures Holds(k.ram, Program(s, Contents(k.ram, s.owned)))
  {
    hide Represents, PageTables.Valid;
    RepresentedIsBacked(k, m, identity, s);
    Opened(k, m, identity, s);
    forall f | f in s.owned
      ensures f < PAGE_COUNT
    {
      Clients.SelfMapped(k, f);
    }
  }

  lemma StaysUndisturbed(ram: Ram, ram': Ram, s: Program, s': Program)
    requires Holds(ram, s) && Holds(ram', s') && Keeps(ram, ram', s.plain.owned)
    ensures Undisturbed(s, s')
  {
  }

  lemma HoldsAfterStore(ram: Ram, s: Program, frame: nat, index: nat, word: Word)
    requires Holds(ram, s) && frame in s.plain.owned && frame < PAGE_COUNT && index < ENTRIES
    ensures frame in s.data
    ensures Holds(Write(ram, frame, index, word), s.(data := s.data[frame := s.data[frame][index := word]]))
  {
  }

  method DoCall(k: PageTables, op: Op, ghost m: Machine, ghost identity: map<nat, Translation>, ghost s: Program)
    returns (outcome: Outcome, ghost s': Program)
    requires Embodies(k, m, identity, s) && Legal(m, s.plain, op)
    modifies k`ram, k`tree, k`cache, k`tableCount, k.tablePages, k.pmm`freePages, k.pmm`cursor, k.pmm.inUse
    ensures Embodies(k, m, identity, s') && Acts(m, identity, s, Call(op), s', outcome)
  {
    hide Represents, Steps, Legal, Holds, Keeps, Undisturbed;
    ghost var ram := k.ram;
    var reply;
    ghost var plain;
    reply, plain := Perform(k, op, m, identity, s.plain);
    outcome, s' := Replied(reply), Program(plain, Contents(k.ram, plain.owned));
    HoldsContents(k, m, identity, plain);
    StaysUndisturbed(ram, k.ram, s, s');
  }

  lemma LoadedIsOwn(k: PageTables, m: Machine, identity: map<nat, Translation>, s: Program, page: nat, index: nat, value: Option<Word>)
    requires Embodies(k, m, identity, s) && index < ENTRIES
    requires var t := Seen(identity, s.plain, page);
      if t.None? then value == None else t.value.frame < PAGE_COUNT && value == Some(k.ram[t.value.frame][index])
    ensures Acts(m, identity, s, Load(page, index), s, Loaded(value))
  {
    hide Represents, Seen;
  }

  method DoLoadWord(k: PageTables, page: nat, index: nat, ghost m: Machine, ghost identity: map<nat, Translation>, ghost s: Program)
    returns (outcome: Outcome)
    requires Embodies(k, m, identity, s) && page < VIRTUAL_PAGES && index < ENTRIES
    modifies k`cache
    ensures Embodies(k, m, identity, s) && Acts(m, identity, s, Load(page, index), s, outcome)
  {
    hide Represents, Holds, Acts, Seen;
    var value := DoLoad(k, page, index, m, identity, s.plain);
    LoadedIsOwn(k, m, identity, s, page, index, value);
    outcome := Loaded(value);
  }

  lemma WritableIs(identity: map<nat, Translation>, s: Plain, page: nat)
    ensures var t := Seen(identity, s, page);
      Writable(identity, s, page) == if t.Some? && t.value.write then Some(t.value.frame) else None
  {
  }

  lemma StoredIsOwn(m: Machine, identity: map<nat, Translation>, s: Program, s': Program, page: nat, index: nat, word: Word)
    requires index < ENTRIES && s'.plain == s.plain && s.data.Keys == s.plain.owned
    requires var target := Writable(identity, s.plain, page);
      if target.Some? then target.value in s.data && s'.data == s.data[target.value := s.data[target.value][index := word]]
      else s' == s
    ensures Acts(m, identity, s, Store(page, index, word), s', Stored(Writable(identity, s.plain, page).Some?))
  {
    hide Writable;
  }

  method DoStoreWord(k: PageTables, page: nat, index: nat, word: Word,
                     ghost m: Machine, ghost identity: map<nat, Translation>, ghost s: Program)
    returns (outcome: Outcome, ghost s': Program)
    requires Embodies(k, m, identity, s) && Allowed(m, identity, s.plain, Store(page, index, word))
    modifies k`ram, k`cache
    ensures Embodies(k, m, identity, s') && Acts(m, identity, s, Store(page, index, word), s', outcome)
  {
    hide Represents, Holds, Acts, Seen, Writable, Write;
    WritableIs(identity, s.plain, page);
    ghost var ram, target := k.ram, Writable(identity, s.plain, page);
    OwnData(ram, s);
    var ok := DoStore(k, page, index, word, m, identity, s.plain);
    s' := s;
    if ok {
      HoldsAfterStore(ram, s, target.value, index, word);
      s' := s.(data := s.data[target.value := s.data[target.value][index := word]]);
    }
    StoredIsOwn(m, identity, s, s', page, index, word);
    outcome := Stored(ok);
  }

  lemma OwnData(ram: Ram, s: Program)
    requires Holds(ram, s)
    ensures s.data.Keys == s.plain.owned
  {
  }

  /** Every action on the real machine is an action of the plain one. */
  method Act(k: PageTables, action: Action, ghost m: Machine, ghost identity: map<nat, Translation>, ghost s: Program)
    returns (outcome: Outcome, ghost s': Program)
    requires Embodies(k, m, identity, s) && Allowed(m, identity, s.plain, action)
    modifies k`ram, k`tree, k`cache, k`tableCount, k.tablePages, k.pmm`freePages, k.pmm`cursor, k.pmm.inUse
    ensures Embodies(k, m, identity, s') && Acts(m, identity, s, action, s', outcome)
  {
    hide Embodies, Acts, Legal, Writable;
    match action {
      case Call(op) => outcome, s' := DoCall(k, op, m, identity, s);
      case Load(page, index) => outcome := DoLoadWord(k, page, index, m, identity, s); s' := s;
      case Store(page, index, word) => outcome, s' := DoStoreWord(k, page, index, word, m, identity, s);
    }
  }

  // ---------------------------------------------------------------- whole runs

  /** A client chooses its next action from the outcomes so far. */
  type Client = seq<Outcome> -> Action

  ghost predicate PlainRun(m: Machine, identity: map<nat, Translation>, client: Client, states: seq<Program>, outcomes: seq<Outcome>)
    ensures PlainRun(m, identity, client, states, outcomes) ==> |states| == |outcomes| + 1
  {
    && |states| == |outcomes| + 1
    && forall i :: 0 <= i < |outcomes| ==> Acts(m, identity, states[i], client(outcomes[..i]), states[i + 1], outcomes[i])
  }

  /** Whatever the plain machine answers, the client keeps to the contract. */
  ghost predicate KeepsContract(m: Machine, identity: map<nat, Translation>, client: Client, s: Program) {
    forall states: seq<Program>, outcomes: seq<Outcome> :: PlainRun(m, identity, client, states, outcomes) && states[0] == s
      ==> Allowed(m, identity, states[|outcomes|].plain, client(outcomes))
  }

  lemma NoSteps(m: Machine, identity: map<nat, Translation>, client: Client, s: Program)
    ensures PlainRun(m, identity, client, [s], [])
  {
  }

  lemma NextIsAllowed(m: Machine, identity: map<nat, Translation>, client: Client, states: seq<Program>, outcomes: seq<Outcome>, s: Program)
    requires KeepsContract(m, identity, client, s) && PlainRun(m, identity, client, states, outcomes) && states[0] == s
    ensures Allowed(m, identity, states[|outcomes|].plain, client(outcomes))
  {
    hide PlainRun, Allowed;
  }

  lemma RunGrows(m: Machine, identity: map<nat, Translation>, client: Client, states: seq<Program>, outcomes: seq<Outcome>,
                 s: Program, outcome: Outcome)
    requires PlainRun(m, identity, client, states, outcomes)
    requires Acts(m, identity, states[|outcomes|], client(outcomes), s, outcome)
    ensures PlainRun(m, identity, client, states + [s], outcomes + [outcome])
  {
    hide Acts;
    var states', outcomes' := states + [s], outcomes + [outcome];
    forall i | 0 <= i < |outcomes'|
      ensures Acts(m, identity, states'[i], client(outcomes'[..i]), states'[i + 1], outcomes'[i])
    {
      if i < |outcomes| {
        assert outcomes'[..i] == outcomes[..i];
      } else {
        assert outcomes'[..i] == outcomes;
      }
    }
  }

  method Advance(k: PageTables, client: Client, outcomes: seq<Outcome>,
                 ghost m: Machine, ghost identity: map<nat, Translation>, ghost s: Program, ghost states: seq<Program>)
    returns (outcomes': seq<Outcome>, ghost states': seq<Program>)
    requires PlainRun(m, identity, client, states, outcomes) && states[0] == s && KeepsContract(m, identity, client, s)
    requires Embodies(k, m, identity, states[|outcomes|])
    modifies k`ram, k`tree, k`cache, k`tableCount, k.tablePages, k.pmm`freePages, k.pmm`cursor, k.pmm.inUse
    ensures |outcomes'| == |outcomes| + 1 && PlainRun(m, identity, client, states', outcomes') && states'[0] == s
    ensures Embodies(k, m, identity, states'[|outcomes'|])
  {
    hide Embodies, Acts, Allowed, PlainRun, KeepsContract;
    var outcome;
    ghost var s';
    NextIsAllowed(m, identity, client, states, outcomes, s);
    outcome, s' := Act(k, client(outcomes), m, identity, states[|outcomes|]);
    RunGrows(m, identity, client, states, outcomes, s', outcome);
    outcomes', states' := outcomes + [outcome], states + [s'];
  }

  /**
    Refinement over every run: a client that keeps its contract with the plain machine gets
    from the real one only replies and words that the plain machine could have given, for as
    long as it likes. The invariants hold throughout, the identity half never changes, and
    owned frames hold at the end exactly what the client stored.
  */
  method Run(k: PageTables, client: Client, n: nat, ghost m: Machine, ghost identity: map<nat, Translation>, ghost s: Program)
    returns (outcomes: seq<Outcome>, ghost states: seq<Program>)
    requires Embodies(k, m, identity, s) && KeepsContract(m, identity, client, s)
    modifies k`ram, k`tree, k`cache, k`tableCount, k.tablePages, k.pmm`freePages, k.pmm`cursor, k.pmm.inUse
    ensures |outcomes| == n && PlainRun(m, identity, client, states, outcomes) && states[0] == s
    ensures Embodies(k, m, identity, states[n])
  {
    hide Embodies, PlainRun, KeepsContract;
    NoSteps(m, identity, client, s);
    outcomes, states := [], [s];
    for i := 0 to n
      invariant |outcomes| == i && PlainRun(m, identity, client, states, outcomes) && states[0] == s
      invariant Embodies(k, m, identity, states[i])
    {
      outcomes, states := Advance(k, client, outcomes, m, identity, s, states);
    }
  }
}
