/** internal/rule/registry.go and the registration half of register.go, with the storage
    behind its lists. */
module Registry {
  import opened Order
  import opened Decimals
  import opened Wrappers
  import opened Storage
  import opened Positions

  // A reflect.Type: its identity and its printed form, which other types may share.
  datatype GoType = GoType(path: string, printed: string)
  datatype Definition = Definition(name: string, targetType: GoType, deepCopy: bool)

  // The calls made on one registry, in the order in which they took the lock.
  datatype Op = AddRule(def: Definition) | TakeID | TakeSnapshot
  datatype Registered = Registered(ordered: seq<Definition>, byType: map<GoType, seq<Definition>>, nextID: nat)

  function RulesIn(s: Registered, t: GoType): seq<Definition>
  {
    if t in s.byType then s.byType[t] else []
  }

  function WithRule(byType: map<GoType, seq<Definition>>, def: Definition): map<GoType, seq<Definition>>
  {
    byType[def.targetType := (if def.targetType in byType then byType[def.targetType] else []) + [def]]
  }

  function Step(s: Registered, op: Op): Registered
  {
    match op
    case AddRule(def) => s.(ordered := s.ordered + [def], byType := WithRule(s.byType, def))
    case TakeID => s.(nextID := s.nextID + 1)
    case TakeSnapshot => s
  }

  function Replay(history: seq<Op>): Registered
  {
    if history == [] then Registered([], map[], 0)
    else Step(Replay(history[..|history| - 1]), history[|history| - 1])
  }

  // The rules are those of the AddRule calls at the positions, in call order.
  ghost predicate RulesOf(history: seq<Op>, at: seq<nat>, rules: seq<Definition>)
  {
    Increasing(at) && |at| == |rules| && forall k :: 0 <= k < |at| ==> at[k] < |history| && history[at[k]] == AddRule(rules[k])
  }

  lemma RulesOfMore(history: seq<Op>, op: Op, at: seq<nat>, rules: seq<Definition>)
    requires RulesOf(history, at, rules)
    ensures RulesOf(history + [op], at, rules)
    ensures op.AddRule? ==> RulesOf(history + [op], at + [|history|], rules + [op.def])
  {
  }

  /** After any history the ordered list has the rules of exactly the AddRule calls, in call
      order. */
  lemma {:induction false} OrderedAreAdds(history: seq<Op>) returns (at: seq<nat>)
    ensures RulesOf(history, at, Replay(history).ordered)
    ensures forall i: nat :: i in at <==> i < |history| && history[i].AddRule?
  {
    at := [];
    if history != [] {
      var m := |history| - 1;
      at := OrderedAreAdds(history[..m]);
      RulesOfMore(history[..m], history[m], at, Replay(history[..m]).ordered);
      assert history == history[..m] + [history[m]];
      assert forall i: nat :: i < m ==> history[..m][i] == history[i];
      if history[m].AddRule? {
        at := at + [m];
      }
    }
  }

  /** The list for a type has those of exactly the calls with that target type. */
  lemma {:induction false} TypeListAreAdds(history: seq<Op>, t: GoType) returns (at: seq<nat>)
    ensures RulesOf(history, at, RulesIn(Replay(history), t))
    ensures forall i: nat :: i in at <==> i < |history| && history[i].AddRule? && history[i].def.targetType == t
  {
    at := [];
    if history != [] {
      var m := |history| - 1;
      at := TypeListAreAdds(history[..m], t);
      RulesOfMore(history[..m], history[m], at, RulesIn(Replay(history[..m]), t));
      assert history == history[..m] + [history[m]];
      assert forall i: nat :: i < m ==> history[..m][i] == history[i];
      if history[m].AddRule? && history[m].def.targetType == t {
        at := at + [m];
      }
    }
  }

  /** The last ID given out is the number of TakeID calls. */
  lemma {:induction false} IDsAreTakes(history: seq<Op>) returns (at: seq<nat>)
    ensures |at| == Replay(history).nextID && Increasing(at)
    ensures forall i: nat :: i in at <==> i < |history| && history[i] == TakeID
  {
    at := [];
    if history != [] {
      var m := |history| - 1;
      at := IDsAreTakes(history[..m]);
      assert forall i: nat :: i < m ==> history[..m][i] == history[i];
      assert forall k :: 0 <= k < |at| ==> at[k] in at;
      if history[m] == TakeID {
        at := at + [m];
      }
    }
  }

  lemma {:induction false} ReplayOne(history: seq<Op>, op: Op)
    ensures Replay(history + [op]) == Step(Replay(history), op)
  {
    assert (history + [op])[..|history|] == history;
  }

  // The subsequence with one target type.
  function OfType(defs: seq<Definition>, t: GoType): seq<Definition>
  {
    if defs == [] then []
    else OfType(defs[..|defs| - 1], t) + if defs[|defs| - 1].targetType == t then [defs[|defs| - 1]] else []
  }

  ghost predicate Indexed(ordered: seq<Definition>, byType: map<GoType, seq<Definition>>)
  {
    && (forall t :: t in byType ==> byType[t] != [])
    && forall t :: OfType(ordered, t) == if t in byType then byType[t] else []
  }

  /** The index agrees with the list after every history of calls. */
  lemma {:induction false} AlwaysIndexed(history: seq<Op>)
    ensures Indexed(Replay(history).ordered, Replay(history).byType)
  {
    if history != [] {
      var before := Replay(history[..|history| - 1]);
      AlwaysIndexed(history[..|history| - 1]);
      var op := history[|history| - 1];
      if op.AddRule? {
        assert (before.ordered + [op.def])[..|before.ordered|] == before.ordered;
      }
    }
  }

  // A Go map is a reference to an object.
  class TypeIndex {
    var entries: map<GoType, Slice<Definition>>

    constructor ()
      ensures entries == map[]
    {
      entries := map[];
    }
  }

  datatype Snapshot = Snapshot(ordered: Slice<Definition>, byType: TypeIndex)

  // Each list has an array of its own.
  ghost predicate Apart(ordered: Slice<Definition>, entries: map<GoType, Slice<Definition>>)
  {
    && (forall t :: t in entries ==> entries[t].data != ordered.data)
    && forall t, u :: t in entries && u in entries && t != u ==> entries[t].data != entries[u].data
  }

  ghost predicate StoredList(s: Slice<Definition>, repr: set<object>, items: seq<Definition>)
    reads s.data
  {
    s.data in repr && InBounds(s) && Items(s) == items
  }

  /** The objects of "repr" store the lists of the state. */
  ghost predicate Stored(s: Snapshot, repr: set<object>, state: Registered)
    reads repr
  {
    && s.byType in repr && s.ordered.data in repr
    && StoredList(s.ordered, repr, state.ordered) && Apart(s.ordered, s.byType.entries)
    && s.byType.entries.Keys == state.byType.Keys
    && forall t :: t in state.byType ==> s.byType.entries[t].data in repr && StoredList(s.byType.entries[t], repr, state.byType[t])
  }

  lemma ApartStep(ordered: Slice<Definition>, entries: map<GoType, Slice<Definition>>, t: GoType, rules: Slice<Definition>)
    requires Apart(ordered, entries)
    requires rules.data != ordered.data && forall u :: u in entries && u != t ==> entries[u].data != rules.data
    ensures Apart(ordered, entries[t := rules])
  {
  }

  lemma SameLists(s: Snapshot, repr: set<object>, a: Registered, b: Registered)
    requires Stored(s, repr, a) && a.ordered == b.ordered && a.byType == b.byType
    ensures Stored(s, repr, b)
  {
  }

  lemma StoredInside(s: Snapshot, repr: set<object>, state: Registered)
    requires Stored(s, repr, state)
    ensures s.ordered.data in repr && s.byType in repr
  {
  }

  method AppendOrdered(s: Snapshot, ghost repr: set<object>, ghost state: Registered, def: Definition)
    returns (ordered: Slice<Definition>, ghost own: set<object>)
    requires Stored(s, repr, state)
    modifies s.ordered.data
    ensures fresh(own - repr) && Stored(Snapshot(ordered, s.byType), own, state.(ordered := state.ordered + [def]))
  {
    ordered := Append(s.ordered, def);
    own := repr + {ordered.data};
  }

  // The lists other than the one for t are stored, and "rules" is apart from all of them.
  ghost predicate StoredBut(s: Snapshot, repr: set<object>, state: Registered, t: GoType, rules: Slice<Definition>)
    reads repr
  {
    && s.byType in repr && s.ordered.data in repr
    && StoredList(s.ordered, repr, state.ordered) && Apart(s.ordered, s.byType.entries)
    && s.byType.entries.Keys == state.byType.Keys && rules.data != s.ordered.data
    && forall u :: u in state.byType && u != t ==>
         var list := s.byType.entries[u];
         list.data in repr && list.data != rules.data && StoredList(list, repr, state.byType[u])
  }

  // Entering a list into the map of the index.
  method PutEntry(s: Snapshot, ghost repr: set<object>, ghost state: Registered, t: GoType, rules: Slice<Definition>, ghost items: seq<Definition>)
    requires StoredBut(s, repr, state, t, rules) && InBounds(rules) && Items(rules) == items
    modifies s.byType
    ensures Stored(s, repr + {rules.data}, state.(byType := state.byType[t := items]))
  {
    hide InBounds, Items, Apart;
    ApartStep(s.ordered, s.byType.entries, t, rules);
    s.byType.entries := s.byType.entries[t := rules];
  }

  method AppendTyped(s: Snapshot, ghost repr: set<object>, ghost state: Registered, def: Definition) returns (ghost own: set<object>)
    requires Stored(s, repr, state)
    modifies repr
    ensures fresh(own - repr) && Stored(s, own, state.(byType := WithRule(state.byType, def)))
  {
    hide InBounds, Items, Stored, StoredBut;
    var rules;
    ghost var items;
    rules, items := AppendEntry(s, repr, state, def);
    StoredButInside(s, repr, state, def.targetType, rules);
    own := repr + {rules.data};
    PutEntry(s, repr, state, def.targetType, rules, items);
  }

  lemma StoredButInside(s: Snapshot, repr: set<object>, state: Registered, t: GoType, rules: Slice<Definition>)
    requires StoredBut(s, repr, state, t, rules)
    ensures s.byType in repr
  {
  }

  // append(r.byType[def.TargetType], def); the look-up of a missing type gives a nil slice.
  method AppendEntry(s: Snapshot, ghost repr: set<object>, ghost state: Registered, def: Definition)
    returns (rules: Slice<Definition>, ghost items: seq<Definition>)
    requires Stored(s, repr, state)
    modifies repr
    ensures StoredBut(s, repr, state, def.targetType, rules) && InBounds(rules) && Items(rules) == items
    ensures fresh({rules.data} - repr) && WithRule(state.byType, def) == state.byType[def.targetType := items]
  {
    hide InBounds, Items;
    var t := def.targetType;
    if t in s.byType.entries {
      rules := s.byType.entries[t];
    } else {
      rules := Nil();
    }
    items := (if t in state.byType then state.byType[t] else []) + [def];
    assert StoredBut(s, repr, state, t, rules);
    rules := Append(rules, def);
  }

  method CopyEntry(s: Snapshot, ghost repr: set<object>, ghost state: Registered,
                   copied: Snapshot, ghost own: set<object>, ghost done: Registered, t: GoType) returns (ghost own': set<object>)
    requires Stored(s, repr, state) && Stored(copied, own, done) && t in state.byType && own !! repr
    modifies copied.byType
    ensures fresh(own' - own) && own <= own' && Stored(copied, own', done.(byType := done.byType[t := state.byType[t]]))
  {
    hide InBounds, Items, Apart;
    var rules := Copy(s.byType.entries[t]);
    own' := own + {rules.data};
    PutEntry(copied, own, done, t, rules, state.byType[t]);
  }

  method CopyOrdered(s: Snapshot, ghost repr: set<object>, ghost state: Registered) returns (copied: Snapshot, ghost own: set<object>)
    requires Stored(s, repr, state)
    ensures fresh(own) && copied.byType in own && Stored(copied, own, state.(byType := map[]))
    ensures s.byType in repr && s.byType.entries.Keys == state.byType.Keys
  {
    hide InBounds, Items;
    var list := Copy(s.ordered);
    var index := new TypeIndex();
    own := {list.data, index};
    copied := Snapshot(list, index);
  }

  // Snapshot: every list is copied, in the unspecified order of the map.
  method CopyLists(s: Snapshot, ghost repr: set<object>, ghost state: Registered) returns (copied: Snapshot, ghost own: set<object>)
    requires Stored(s, repr, state)
    ensures fresh(own) && Stored(copied, own, state)
  {
    hide Stored;
    copied, own := CopyOrdered(s, repr, state);
    ghost var done: map<GoType, seq<Definition>> := map[];
    var left := s.byType.entries.Keys;
    while left != {}
      invariant left <= state.byType.Keys && done.Keys == state.byType.Keys - left
      invariant forall t :: t in done ==> done[t] == state.byType[t]
      invariant fresh(own) && own !! repr && copied.byType in own && Stored(copied, own, state.(byType := done))
      decreases left
    {
      var t :| t in left;
      own := CopyEntry(s, repr, state, copied, own, state.(byType := done), t);
      done := done[t := state.byType[t]];
      left := left - {t};
    }
    assert done == state.byType;
  }

  class Registry {
    var ordered: Slice<Definition>
    var byType: TypeIndex
    var nextID: nat
    ghost var history: seq<Op>
    ghost var Repr: set<object>

    ghost predicate Valid()
      reads this, Repr
    {
      && this in Repr && nextID == Replay(history).nextID
      && Stored(Snapshot(ordered, byType), Repr - {this}, Replay(history))
    }

    // What the lists hold.
    ghost function OrderedItems(): seq<Definition>
      requires Valid()
      reads this, Repr
    {
      Items(ordered)
    }

    ghost function ItemsFor(t: GoType): seq<Definition>
      requires Valid()
      reads this, Repr
    {
      if t in byType.entries then Items(byType.entries[t]) else []
    }

    lemma HoldsReplay()
      requires Valid()
      ensures OrderedItems() == Replay(history).ordered
      ensures forall t :: ItemsFor(t) == RulesIn(Replay(history), t)
      ensures nextID == Replay(history).nextID
    {
      hide Replay;
    }

    constructor ()
      ensures Valid() && fresh(Repr) && history == []
      ensures OrderedItems() == [] && forall t :: ItemsFor(t) == []
    {
      var list := Nil();
      var index := new TypeIndex();
      ordered, byType, nextID, history := list, index, 0, [];
      Repr := {this, list.data, index};
    }

    method Add(def: Definition)
      requires Valid()
      modifies Repr
      ensures Valid() && fresh(Repr - old(Repr)) && history == old(history) + [AddRule(def)]
      ensures OrderedItems() == old(OrderedItems()) + [def]
      ensures ItemsFor(def.targetType) == old(ItemsFor(def.targetType)) + [def]
      ensures forall t :: t != def.targetType ==> ItemsFor(t) == old(ItemsFor(t))
      ensures nextID == old(nextID)
    {
      hide Stored, Replay, OrderedItems, ItemsFor;
      HoldsReplay();
      ReplayOne(history, AddRule(def));
      ghost var state := Replay(history);
      StoredInside(Snapshot(ordered, byType), Repr - {this}, state);
      ghost var own: set<object>;
      ordered, own := AppendOrdered(Snapshot(ordered, byType), Repr - {this}, state, def);
      ghost var more: set<object>;
      more := AppendTyped(Snapshot(ordered, byType), own, state.(ordered := state.ordered + [def]), def);
      Repr := more + {this};
      history := history + [AddRule(def)];
      HoldsReplay();
    }

    method NextID() returns (id: int)
      requires Valid()
      modifies Repr
      ensures Valid() && Repr == old(Repr) && history == old(history) + [TakeID] && id == Replay(history).nextID
      ensures id == nextID == old(nextID) + 1
      ensures OrderedItems() == old(OrderedItems()) && forall t :: ItemsFor(t) == old(ItemsFor(t))
    {
      hide Stored, Replay, OrderedItems, ItemsFor;
      HoldsReplay();
      ReplayOne(history, TakeID);
      ghost var own := Repr - {this};
      ghost var state := Replay(history);
      nextID := nextID + 1;
      history := history + [TakeID];
      SameLists(Snapshot(ordered, byType), own, state, Replay(history));
      HoldsReplay();
      id := nextID;
    }

    /** A snapshot stores the state of the calls made so far in objects of its own. */
    method TakeSnapshot() returns (s: Snapshot, ghost own: set<object>)
      requires Valid()
      modifies this`history
      ensures Valid() && Repr == old(Repr) && history == old(history) + [Op.TakeSnapshot]
      ensures fresh(own) && Stored(s, own, Replay(history)) && Indexed(Replay(history).ordered, Replay(history).byType)
    {
      hide Stored, Replay, Indexed;
      ReplayOne(history, Op.TakeSnapshot);
      history := history + [Op.TakeSnapshot];
      AlwaysIndexed(history);
      s, own := CopyLists(Snapshot(ordered, byType), Repr - {this}, Replay(history));
    }

    /** Register: a rule without a name is called "rule#" and the next ID. IDs are 64-bit. */
    method Register(name: string, targetType: GoType, deepCopy: bool)
      requires Valid() && nextID < MAX_INT
      modifies Repr
      ensures Valid() && fresh(Repr - old(Repr))
      ensures nextID == old(nextID) + if name == "" then 1 else 0
      ensures var chosen := if name == "" then "rule#" + Decimal(nextID) else name;
        && OrderedItems() == old(OrderedItems()) + [Definition(chosen, targetType, deepCopy)]
        && ItemsFor(targetType) == old(ItemsFor(targetType)) + [Definition(chosen, targetType, deepCopy)]
        && forall t :: t != targetType ==> ItemsFor(t) == old(ItemsFor(t))
      ensures name != "" ==> history == old(history) + [AddRule(Definition(name, targetType, deepCopy))]
      ensures name == "" ==>
        history == old(history) + [TakeID] + [AddRule(Definition(DefaultName(Replay(old(history) + [TakeID]).nextID), targetType, deepCopy))]
    {
      hide OrderedItems, ItemsFor, Valid, Replay;
      var chosen := name;
      if chosen == "" {
        IDsArePositive(history);
        var id := NextID();
        var digits := Itoa(id);
        chosen := "rule#" + digits;
      }
      Add(Definition(chosen, targetType, deepCopy));
    }
  }

  function DefaultName(id: nat): string
  {
    "rule#" + Decimal(id)
  }

  lemma {:induction false} IDsArePositive(history: seq<Op>)
    ensures Replay(history + [TakeID]).nextID == Replay(history).nextID + 1
  {
    assert (history + [TakeID])[..|history|] == history;
  }

  lemma {:induction false} IDsGrow(history: seq<Op>, k: nat)
    requires k <= |history|
    ensures Replay(history[..k]).nextID <= Replay(history).nextID
    decreases |history|
  {
    if k < |history| {
      IDsGrow(history[..|history| - 1], k);
      assert history[..|history| - 1][..k] == history[..k];
    } else {
      assert history[..k] == history;
    }
  }

  /** The default names given out by any two NextID calls of one history differ, however
      other calls are interleaved with them. */
  lemma DefaultNamesDistinct(history: seq<Op>, k: nat, l: nat)
    requires k < l < |history| && history[k] == TakeID && history[l] == TakeID
    ensures DefaultName(Replay(history[..k + 1]).nextID) != DefaultName(Replay(history[..l + 1]).nextID)
  {
    var idK, idL := Replay(history[..k + 1]).nextID, Replay(history[..l + 1]).nextID;
    assert history[..l + 1][..l] == history[..l] && history[..l][..k + 1] == history[..k + 1];
    IDsGrow(history[..l], k + 1);
    assert idK < idL;
    DecimalInjective(idK, idL);
    assert DefaultName(idK)[5..] == Decimal(idK) && DefaultName(idL)[5..] == Decimal(idL);
  }

  /** An earlier snapshot lists a prefix of what a later one lists, for every type. */
  lemma {:induction false} SnapshotsExtend(history: seq<Op>, k: nat, t: GoType)
    requires k <= |history|
    ensures Replay(history[..k]).ordered <= Replay(history).ordered
    ensures OfType(Replay(history[..k]).ordered, t) <= OfType(Replay(history).ordered, t)
    decreases |history|
  {
    if k < |history| {
      var front := history[..|history| - 1];
      SnapshotsExtend(front, k, t);
      assert front[..k] == history[..k];
      var op := history[|history| - 1];
      if op.AddRule? {
        assert (Replay(front).ordered + [op.def])[..|Replay(front).ordered|] == Replay(front).ordered;
      }
    } else {
      assert history[..k] == history;
    }
  }

  // The calls at which a snapshot was taken.
  function SnapshotTimes(calls: seq<Op>): (r: seq<nat>)
    ensures forall i :: 0 <= i < |r| ==> r[i] < |calls| && calls[r[i]] == TakeSnapshot
  {
    if calls == [] then []
    else SnapshotTimes(calls[..|calls| - 1]) + if calls[|calls| - 1] == TakeSnapshot then [|calls| - 1] else []
  }

  /** Every such call is listed ... */
  lemma {:induction false} TimesComplete(calls: seq<Op>, i: nat)
    requires i < |calls| && calls[i] == TakeSnapshot
    ensures i in SnapshotTimes(calls)
  {
    if i < |calls| - 1 {
      TimesComplete(calls[..|calls| - 1], i);
    }
  }

  /** ... once and in order. */
  lemma {:induction false} TimesIncrease(calls: seq<Op>, k: nat, l: nat)
    requires k < l < |SnapshotTimes(calls)|
    ensures SnapshotTimes(calls)[k] < SnapshotTimes(calls)[l]
  {
    var front := calls[..|calls| - 1];
    if l < |SnapshotTimes(front)| {
      TimesIncrease(front, k, l);
    }
  }

  lemma {:induction false} TimesStep(calls: seq<Op>, op: Op)
    ensures SnapshotTimes(calls + [op]) == SnapshotTimes(calls) + if op == TakeSnapshot then [|calls|] else []
  {
    assert (calls + [op])[..|calls|] == calls;
  }

  method PerformOne(registry: Registry, call: Op) returns (taken: seq<Snapshot>, ghost own: seq<set<object>>)
    requires registry.Valid()
    modifies registry.Repr
    ensures registry.Valid() && fresh(registry.Repr - old(registry.Repr)) && registry.history == old(registry.history) + [call]
    ensures |taken| == |own| == if call == TakeSnapshot then 1 else 0
    ensures call == TakeSnapshot ==>
      fresh(own[0]) && own[0] !! registry.Repr && Stored(taken[0], own[0], Replay(old(registry.history)))
  {
    hide Stored, Replay;
    taken, own := [], [];
    match call {
      case AddRule(def) => registry.Add(def);
      case TakeID => var id := registry.NextID();
      case TakeSnapshot =>
        var s;
        ghost var objects;
        ReplayOne(registry.history, call);
        s, objects := registry.TakeSnapshot();
        taken, own := [s], [objects];
    }
  }

  /** Every snapshot of a run of calls still stores, at the end of the run, the state in which
      it was taken: later calls never change it. */
  method PerformAll(calls: seq<Op>) returns (registry: Registry, snapshots: seq<Snapshot>, ghost owns: seq<set<object>>)
    ensures registry.Valid() && registry.history == calls
    ensures |snapshots| == |owns| == |SnapshotTimes(calls)|
    ensures forall i :: 0 <= i < |snapshots| ==>
      owns[i] !! registry.Repr && Stored(snapshots[i], owns[i], Replay(calls[..SnapshotTimes(calls)[i]]))
  {
    hide Stored, Replay;
    registry := new Registry();
    snapshots, owns := [], [];
    ghost var times: seq<nat> := [];
    for k := 0 to |calls|
      invariant registry.Valid() && fresh(registry.Repr) && registry.history == calls[..k]
      invariant times == SnapshotTimes(calls[..k]) && |snapshots| == |owns| == |times|
      invariant forall i :: 0 <= i < |times| ==> times[i] < k
      invariant forall i :: 0 <= i < |snapshots| ==>
        owns[i] !! registry.Repr && Stored(snapshots[i], owns[i], Replay(calls[..times[i]]))
    {
      assert calls[..k + 1] == calls[..k] + [calls[k]];
      TimesStep(calls[..k], calls[k]);
      var taken;
      ghost var own;
      taken, own := PerformOne(registry, calls[k]);
      snapshots, owns, times := snapshots + taken, owns + own, times + if calls[k] == TakeSnapshot then [k] else [];
    }
    assert calls[..|calls|] == calls;
  }

  /** What RulesFor returns on a snapshot: the rules of the AddRule calls made before it with
      that target type, in call order. */
  lemma {:induction false} RulesForAreAdds(history: seq<Op>, t: GoType) returns (at: seq<nat>)
    ensures RulesOf(history, at, OfType(Replay(history).ordered, t))
    ensures forall i: nat :: i in at <==> i < |history| && history[i].AddRule? && history[i].def.targetType == t
  {
    AlwaysIndexed(history);
    at := TypeListAreAdds(history, t);
  }

  // A caller that gets the rules of a type gets a list of its own.
  method RulesFor(s: Snapshot, nodeType: Option<GoType>, ghost own: set<object>, ghost state: Registered) returns (rules: Slice<Definition>)
    requires Stored(s, own, state) && Indexed(state.ordered, state.byType)
    ensures InBounds(rules) && fresh(rules.data)
    ensures Items(rules) == if nodeType.None? then [] else OfType(state.ordered, nodeType.value)
  {
    if nodeType.None? || nodeType.value !in s.byType.entries {
      rules := Nil();
    } else {
      rules := Copy(s.byType.entries[nodeType.value]);
    }
  }

  ghost predicate SortedByForm(types: seq<GoType>)
  {
    forall i, j :: 0 <= i < j < |types| ==> Leq(types[i].printed, types[j].printed)
  }

  // slices.SortFunc promises no order for types with the same printed form.
  method SortByForm(types: seq<GoType>) returns (sorted: seq<GoType>)
    ensures SortedByForm(sorted) && multiset(sorted) == multiset(types)
  {
    sorted := [];
    for i := 0 to |types|
      invariant SortedByForm(sorted) && multiset(sorted) == multiset(types[..i])
    {
      assert types[..i + 1] == types[..i] + [types[i]];
      sorted := InsertByForm(types[i], sorted);
    }
    assert types[..|types|] == types;
  }

  method InsertByForm(x: GoType, types: seq<GoType>) returns (r: seq<GoType>)
    requires SortedByForm(types)
    ensures SortedByForm(r) && multiset(r) == multiset(types) + multiset{x}
  {
    hide Leq;
    var k := 0;
    while k < |types| && Leq(types[k].printed, x.printed)
      invariant k <= |types| && forall i :: 0 <= i < k ==> Leq(types[i].printed, x.printed)
    {
      k := k + 1;
    }
    r := types[..k] + [x] + types[k..];
    assert types == types[..k] + types[k..];
    forall j | k <= j < |types| ensures Leq(x.printed, types[j].printed) {
      LeqTotal(types[k].printed, x.printed);
      if k < j { LeqTransitive(x.printed, types[k].printed, types[j].printed); }
    }
  }

  /** Each type with a rule once, sorted by printed form. */
  method TargetTypes(s: Snapshot, ghost own: set<object>, ghost state: Registered) returns (types: seq<GoType>)
    requires Stored(s, own, state) && Indexed(state.ordered, state.byType)
    ensures SortedByForm(types)
    ensures forall t :: multiset(types)[t] == if OfType(state.ordered, t) != [] then 1 else 0
  {
    types := [];
    var left := s.byType.entries.Keys;
    while left != {}
      invariant left <= state.byType.Keys
      invariant forall t :: multiset(types)[t] == if t in state.byType && t !in left then 1 else 0
      decreases left
    {
      var t :| t in left;
      types, left := types + [t], left - {t};
    }
    types := SortByForm(types);
  }

  ghost predicate FormsDiffer(types: seq<GoType>)
  {
    forall i, j :: 0 <= i < j < |types| ==> types[i].printed != types[j].printed
  }

  function Forms(types: seq<GoType>): (r: seq<string>)
    ensures |r| == |types| && forall i :: 0 <= i < |r| ==> r[i] == types[i].printed
  {
    seq(|types|, i requires 0 <= i < |types| => types[i].printed)
  }

  /** The order of the target types is determined, whatever the map iteration order, if and
      only if no two of them have the same printed form. */
  lemma OrderIsDetermined(types: seq<GoType>)
    requires SortedByForm(types) && forall t :: multiset(types)[t] <= 1
    ensures (forall other :: SortedByForm(other) && multiset(other) == multiset(types) ==> other == types) <==> FormsDiffer(types)
  {
    hide SortedByForm;
    if FormsDiffer(types) {
      forall other | SortedByForm(other) && multiset(other) == multiset(types)
        ensures other == types
      {
        SameOrder(types, other);
      }
    } else {
      var i, j :| 0 <= i < j < |types| && types[i].printed == types[j].printed;
      var other := SwapForms(types, i, j);
    }
  }

  lemma SwapForms(types: seq<GoType>, i: nat, j: nat) returns (other: seq<GoType>)
    requires SortedByForm(types) && (forall t :: multiset(types)[t] <= 1) && i < j < |types| && types[i].printed == types[j].printed
    ensures SortedByForm(other) && multiset(other) == multiset(types) && other != types
  {
    hide Leq;
    other := types[i := types[j]][j := types[i]];
    TwoPlaces(types, i, j);
    assert Forms(other) == Forms(types);
    assert forall k :: 0 <= k < |types| ==> other[k].printed == Forms(other)[k] && types[k].printed == Forms(types)[k];
    assert other[i] != types[i];
  }

  lemma SameOrder(a: seq<GoType>, b: seq<GoType>)
    requires SortedByForm(a) && SortedByForm(b) && FormsDiffer(a)
    requires multiset(a) == multiset(b) && forall t :: multiset(a)[t] <= 1
    ensures a == b
  {
    hide Leq;
    forall i, j | 0 <= i < j < |b| ensures b[i].printed != b[j].printed {
      TwoPlaces(b, i, j);
      assert b[i] in multiset(a) && b[j] in multiset(a);
    }
    SameForms(a, b);
    SameForms(b, a);
    StrictlySortedUnique(Forms(a), Forms(b));
    forall i | 0 <= i < |a| ensures a[i] == b[i] {
      assert Forms(a)[i] == Forms(b)[i] && a[i] in multiset(b);
    }
  }

  lemma SameForms(a: seq<GoType>, b: seq<GoType>)
    requires multiset(a) == multiset(b)
    ensures forall f :: f in Forms(a) ==> f in Forms(b)
  {
    forall f | f in Forms(a) ensures f in Forms(b) {
      var i :| 0 <= i < |a| && a[i].printed == f;
      assert a[i] in multiset(b);
      var j :| 0 <= j < |b| && b[j] == a[i];
      assert Forms(b)[j] == f;
    }
  }
}
