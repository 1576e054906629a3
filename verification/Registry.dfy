/** The session registry of RtspServer: two maps that must agree, over session objects whose URL
    suffix can change while they are registered. */
module Registry {

  datatype Option<T> = None | Some(value: T)

  /** _mediaSessions, with the current suffix of each object (None is a null pointer), and
      _rtspSuffixMap. */
  datatype Maps = Maps(sessions: map<nat, Option<string>>, suffixes: map<string, nat>)

  /** The two maps are inverse to each other. */
  ghost predicate Agree(m: Maps) {
    && (forall x | x in m.suffixes :: m.suffixes[x] in m.sessions && m.sessions[m.suffixes[x]] == Some(x))
    && (forall i | i in m.sessions :: m.sessions[i].Some? && m.sessions[i].value in m.suffixes
                                      && m.suffixes[m.sessions[i].value] == i)
  }

  /** std::unordered_map::emplace: an entry that is there stays. */
  function Emplaced<K, V>(m: map<K, V>, k: K, v: V): map<K, V> {
    if k in m then m else m[k := v]
  }

  // -- The calls --------------------------------------------------------------------------

  /** What is called: a session is given by its id and the suffix it has at that moment. */
  datatype Action = Add(id: nat, suffix: string) | Remove(id: nat) | Look(suffix: string) | Rename(id: nat, to: string)

  /** The object of a registered id is the registered one, and removing a null entry is undefined. */
  predicate Possible(m: Maps, a: Action) {
    match a
    case Add(id, suffix) => id in m.sessions ==> m.sessions[id] == Some(suffix)
    case Remove(id) => id in m.sessions ==> m.sessions[id].Some?
    case _ => true
  }

  function Step(m: Maps, a: Action): Maps
    requires Possible(m, a)
  {
    match a
    case Add(id, suffix) =>
      if suffix in m.suffixes then m
      else Maps(Emplaced(m.sessions, id, Some(suffix)), Emplaced(m.suffixes, suffix, id))
    case Remove(id) =>
      if id in m.sessions then Maps(m.sessions - {id}, m.suffixes - {m.sessions[id].value}) else m
    case Look(suffix) =>
      if suffix in m.suffixes then m.(sessions := Emplaced(m.sessions, m.suffixes[suffix], None)) else m
    case Rename(id, to) =>
      if id in m.sessions && m.sessions[id].Some? then m.(sessions := m.sessions[id := Some(to)]) else m
  }

  /** A registered session gets another suffix. */
  predicate Renames(m: Maps, a: Action) {
    a.Rename? && a.id in m.sessions && m.sessions[a.id] != Some(a.to)
  }

  /** Maps that agree stay so with every call but that one. */
  lemma {:induction false} StepAgrees(m: Maps, a: Action)
    requires Agree(m) && Possible(m, a)
    ensures Agree(Step(m, a)) <==> !Renames(m, a)
  {
    var r := Step(m, a);
    if Renames(m, a) {
      var x := m.sessions[a.id].value;
      assert x in r.suffixes && r.suffixes[x] == a.id && r.sessions[a.id] != Some(x);
    } else if a.Rename? {
      assert r == m;
    }
  }

  /** A lookup by suffix inserts an entry exactly when the suffix leads to no session. */
  lemma {:induction false} LookInserts(m: Maps, suffix: string)
    ensures Step(m, Look(suffix)) == m <==> !(suffix in m.suffixes && m.suffixes[suffix] !in m.sessions)
    ensures Agree(m) ==> Step(m, Look(suffix)) == m
  {
    if suffix in m.suffixes && m.suffixes[suffix] !in m.sessions {
      assert m.suffixes[suffix] in Step(m, Look(suffix)).sessions;
    }
  }

  /** What a rename leads to, with no second session at all: the removal erases the new suffix, the
      old one is left dangling, and the next lookup of it inserts a null entry. */
  lemma {:induction false} RenameThenRemove(id: nat, suffix: string, to: string)
    requires suffix != to
    ensures IsRun([Add(id, suffix), Rename(id, to), Remove(id)])
    ensures IsRun([Add(id, suffix), Rename(id, to), Remove(id), Look(suffix)])
    ensures Run([Add(id, suffix), Rename(id, to), Remove(id)]) == Maps(map[], map[suffix := id])
    ensures Run([Add(id, suffix), Rename(id, to), Remove(id), Look(suffix)])
      == Maps(map[id := None], map[suffix := id])
  {
    var a, b, c, d := Add(id, suffix), Rename(id, to), Remove(id), Look(suffix);
    assert IsRun([]) && Run([]) == Maps(map[], map[]);
    assert [a, b, c, d][..3] == [a, b, c] && [a, b, c][..2] == [a, b] && [a, b][..1] == [a] && [a][..0] == [];
    assert IsRun([a]);
    assert Run([a]) == Maps(map[id := Some(suffix)], map[suffix := id]);
    assert IsRun([a, b]);
    assert Run([a, b]) == Maps(map[id := Some(to)], map[suffix := id]);
    assert IsRun([a, b, c]);
    assert Run([a, b, c]) == Maps(map[], map[suffix := id]);
  }

  /** A renamed session can be added again, and then both suffixes lead to it. */
  lemma {:induction false} RenameThenAdd(id: nat, suffix: string, to: string)
    requires suffix != to
    ensures IsRun([Add(id, suffix), Rename(id, to), Add(id, to)])
    ensures Run([Add(id, suffix), Rename(id, to), Add(id, to)]) == Maps(map[id := Some(to)], map[suffix := id, to := id])
  {
    var a, b, c := Add(id, suffix), Rename(id, to), Add(id, to);
    assert IsRun([]) && Run([]) == Maps(map[], map[]);
    assert [a, b, c][..2] == [a, b] && [a, b][..1] == [a] && [a][..0] == [];
    assert IsRun([a]);
    assert Run([a]) == Maps(map[id := Some(suffix)], map[suffix := id]);
    assert IsRun([a, b]);
    assert Run([a, b]) == Maps(map[id := Some(to)], map[suffix := id]);
  }

  // -- Runs -------------------------------------------------------------------------------

  predicate IsRun(actions: seq<Action>)
    decreases |actions|, 0
  {
    actions == [] ||
    (IsRun(actions[..|actions| - 1]) && Possible(Run(actions[..|actions| - 1]), actions[|actions| - 1]))
  }

  function Run(actions: seq<Action>): Maps
    requires IsRun(actions)
    decreases |actions|, 1
  {
    if actions == [] then Maps(map[], map[]) else Step(Run(actions[..|actions| - 1]), actions[|actions| - 1])
  }

  /** The maps agree at every moment of a run. */
  ghost predicate AgreeThroughout(actions: seq<Action>)
    requires IsRun(actions)
  {
    Agree(Run(actions)) && (actions != [] ==> AgreeThroughout(actions[..|actions| - 1]))
  }

  /** Some call of the run gives a session that is registered at that moment another suffix. */
  predicate SomeRename(actions: seq<Action>)
    requires IsRun(actions)
  {
    actions != [] &&
    (SomeRename(actions[..|actions| - 1]) || Renames(Run(actions[..|actions| - 1]), actions[|actions| - 1]))
  }

  /** Over every run of adding, removing, looking up and renaming, the maps agree at every moment if
      and only if no registered session is given another suffix. */
  lemma {:induction false} AgreeUnlessRenamed(actions: seq<Action>)
    requires IsRun(actions)
    ensures AgreeThroughout(actions) <==> !SomeRename(actions)
  {
    if actions != [] {
      var init := actions[..|actions| - 1];
      AgreeUnlessRenamed(init);
      if AgreeThroughout(init) {
        assert Agree(Run(init));
        StepAgrees(Run(init), actions[|actions| - 1]);
      }
    }
  }

  // -- What is registered -----------------------------------------------------------------

  /** What one call does to the suffixes: an id that is removed loses its suffix, one that is added
      gets it if no other has it, and all others stay as they are. */
  lemma {:induction false} StepSuffixes(m: Maps, a: Action, x: string, i: nat)
    requires Agree(m) && Possible(m, a) && !Renames(m, a)
    ensures var r := Step(m, a);
            (x in r.suffixes && r.suffixes[x] == i)
            <==> (x in m.suffixes && m.suffixes[x] == i && a != Remove(i)) || (a == Add(i, x) && x !in m.suffixes)
  {
    if a.Look? {
      LookInserts(m, a.suffix);
    }
  }

  lemma {:induction false} PrefixIsRun(actions: seq<Action>, n: nat)
    requires IsRun(actions) && n <= |actions|
    ensures IsRun(actions[..n])
  {
    if n < |actions| {
      PrefixIsRun(actions[..|actions| - 1], n);
      assert actions[..|actions| - 1][..n] == actions[..n];
    } else {
      assert actions[..n] == actions;
    }
  }

  /** The j-th call has added id `i` with suffix `x`, which was free then, and no later call removes it. */
  predicate AddedAt(actions: seq<Action>, i: nat, x: string, j: nat)
    requires IsRun(actions) && j < |actions|
  {
    PrefixIsRun(actions, j);
    && actions[j] == Add(i, x) && x !in Run(actions[..j]).suffixes
    && forall k | j < k < |actions| :: actions[k] != Remove(i)
  }

  lemma {:induction false} AddedSnoc(actions: seq<Action>, i: nat, x: string)
    requires IsRun(actions) && actions != []
    ensures var n := |actions| - 1; IsRun(actions[..n])
    ensures var n := |actions| - 1;
            (exists j | 0 <= j < |actions| :: AddedAt(actions, i, x, j))
            <==> ((exists j | 0 <= j < n :: AddedAt(actions[..n], i, x, j)) && actions[n] != Remove(i))
                 || (actions[n] == Add(i, x) && x !in Run(actions[..n]).suffixes)
  {
    var n := |actions| - 1;
    PrefixIsRun(actions, n);
    forall j | 0 <= j < n
      ensures AddedAt(actions, i, x, j) <==> AddedAt(actions[..n], i, x, j) && actions[n] != Remove(i)
    {
      assert actions[..n][..j] == actions[..j];
      assert forall k | j < k < n :: actions[..n][k] == actions[k];
    }
    assert AddedAt(actions, i, x, n) <==> actions[n] == Add(i, x) && x !in Run(actions[..n]).suffixes;
  }

  /** Over every run in which no registered session is renamed, a suffix leads to a session, and that
      session has it, if and only if a call has added them when the suffix was free and none has
      removed the session since. */
  lemma {:induction false} RegisteredIff(actions: seq<Action>, i: nat, x: string)
    requires IsRun(actions) && !SomeRename(actions)
    ensures var m := Run(actions);
            && (x in m.suffixes && m.suffixes[x] == i <==> exists j | 0 <= j < |actions| :: AddedAt(actions, i, x, j))
            && (i in m.sessions && m.sessions[i] == Some(x) <==> x in m.suffixes && m.suffixes[x] == i)
  {
    AgreeUnlessRenamed(actions);
    assert Agree(Run(actions));
    if actions != [] {
      var init, a := actions[..|actions| - 1], actions[|actions| - 1];
      RegisteredIff(init, i, x);
      AgreeUnlessRenamed(init);
      assert Agree(Run(init));
      AddedSnoc(actions, i, x);
      StepSuffixes(Run(init), a, x, i);
    }
  }

  // -- The server -------------------------------------------------------------------------

  class MediaSession {
    const id: nat
    var suffix: string

    constructor (id: nat, suffix: string)
      ensures this.id == id && this.suffix == suffix
    {
      this.id, this.suffix := id, suffix;
    }

    method SetRtspUrlSuffix(suffix: string)
      modifies this
      ensures this.suffix == suffix
    {
      this.suffix := suffix;
    }
  }

  class RtspServer {
    var mediaSessions: map<nat, MediaSession?>
    var rtspSuffixMap: map<string, nat>

    ghost function Objects(): set<object>
      reads this
    {
      set i | i in mediaSessions && mediaSessions[i] != null :: mediaSessions[i]
    }

    /** An object is registered under its own id. */
    ghost predicate Valid()
      reads this, Objects()
    {
      forall i | i in mediaSessions && mediaSessions[i] != null :: mediaSessions[i].id == i
    }

    ghost function State(): Maps
      reads this, Objects()
    {
      Maps(map i | i in mediaSessions :: if mediaSessions[i] == null then None else Some(mediaSessions[i].suffix),
           rtspSuffixMap)
    }

    constructor ()
      ensures Valid() && State() == Run([])
    {
      mediaSessions, rtspSuffixMap := map[], map[];
    }

    method AddMeidaSession(session: MediaSession) returns (id: nat)
      requires Valid()
      requires session.id in mediaSessions ==> mediaSessions[session.id] == session
      modifies this
      ensures Valid() && State() == Step(old(State()), Add(session.id, session.suffix))
      ensures id == if session.suffix in old(rtspSuffixMap) then 0 else session.id
    {
      if session.suffix in rtspSuffixMap {
        return 0;
      }
      rtspSuffixMap := Emplaced(rtspSuffixMap, session.suffix, session.id);
      mediaSessions := Emplaced(mediaSessions, session.id, session);
      return session.id;
    }

    method RemoveMeidaSession(sessionId: nat)
      requires Valid()
      requires sessionId in mediaSessions ==> mediaSessions[sessionId] != null
      modifies this
      ensures Valid() && State() == Step(old(State()), Remove(sessionId))
    {
      if sessionId in mediaSessions {
        rtspSuffixMap := rtspSuffixMap - {mediaSessions[sessionId].suffix};
        mediaSessions := mediaSessions - {sessionId};
      }
    }

    /** A registered session is renamed through its own setter. */
    method RenameRegistered(sessionId: nat, to: string)
      requires Valid() && sessionId in mediaSessions && mediaSessions[sessionId] != null
      modifies mediaSessions[sessionId]
      ensures Valid() && State() == Step(old(State()), Rename(sessionId, to))
    {
      mediaSessions[sessionId].SetRtspUrlSuffix(to);
    }

    method LookById(sessionId: nat) returns (r: MediaSession?)
      ensures r == if sessionId in mediaSessions then mediaSessions[sessionId] else null
    {
      if sessionId in mediaSessions {
        return mediaSessions[sessionId];
      }
      return null;
    }

    /** operator[] inserts a null entry for an id that is missing. Where the maps agree this finds
        exactly the session with that suffix, the one the lookup by id finds. */
    method LookBySuffix(suffix: string) returns (r: MediaSession?)
      requires Valid()
      modifies this
      ensures Valid() && State() == Step(old(State()), Look(suffix))
      ensures rtspSuffixMap == old(rtspSuffixMap)
      ensures suffix in rtspSuffixMap ==> rtspSuffixMap[suffix] in mediaSessions
      ensures r == if suffix in rtspSuffixMap then mediaSessions[rtspSuffixMap[suffix]] else null
      ensures old(Agree(State())) ==>
        && mediaSessions == old(mediaSessions)
        && (r != null ==> old(r.suffix) == suffix && r.id in mediaSessions && mediaSessions[r.id] == r)
        && (r == null ==>
              forall i | i in mediaSessions :: mediaSessions[i] != null && old(mediaSessions[i].suffix) != suffix)
    {
      LookInserts(State(), suffix);
      ghost var m := State();
      assert forall i | i in mediaSessions && mediaSessions[i] != null ::
        m.sessions[i] == Some(mediaSessions[i].suffix);
      if suffix in rtspSuffixMap {
        var id := rtspSuffixMap[suffix];
        mediaSessions := Emplaced(mediaSessions, id, null);
        return mediaSessions[id];
      }
      assert forall i | i in mediaSessions :: i in m.sessions && (mediaSessions[i] == null ==> m.sessions[i].None?);
      return null;
    }
  }
}
