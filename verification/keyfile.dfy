/** The whole-file structure of src/keyfile.rs: a `KeyFile` is an
    insertion-ordered map from group names to groups, plus the decor lines
    that trail the last group. */
module KeyFiles {
  import opened Wrappers
  import opened OrderedMap
  import opened TextLines
  import opened BasicTypes
  import opened Types

  datatype KeyFile = KeyFile(groups: Entries<string, Group>, decor: seq<string>)

  /** The group map's invariant: distinct names, every map key is the name of
      the group it holds, and every group's own entry map is valid. */
  predicate ValidGroups(gs: Entries<string, Group>) {
    && DistinctKeys(gs)
    && forall i :: 0 <= i < |gs| ==> gs[i].0 == gs[i].1.name && ValidGroup(gs[i].1)
  }

  predicate ValidKeyFile(kf: KeyFile) {
    ValidGroups(kf.groups)
  }

  /** Every group followed by nothing: the groups' part of the rendering. */
  function RenderGroups(gs: Entries<string, Group>): string
  {
    if |gs| == 0 then [] else RenderGroup(gs[0].1) + RenderGroups(gs[1..])
  }

  lemma {:induction false} RenderGroupsConcat(a: Entries<string, Group>, b: Entries<string, Group>)
    ensures RenderGroups(a + b) == RenderGroups(a) + RenderGroups(b)
  {
    if |a| == 0 {
      assert a + b == b;
    } else {
      assert (a + b)[1..] == a[1..] + b;
      RenderGroupsConcat(a[1..], b);
    }
  }

  /** `Display for KeyFile`: every group in map order, then the trailing
      decor lines, each ended by a line feed. */
  function RenderKeyFile(kf: KeyFile): string
  {
    RenderGroups(kf.groups) + Unlines(kf.decor)
  }

  /** `KeyFile::new`: no groups, no decor, and an empty rendering. */
  function New(): (kf: KeyFile)
    ensures ValidKeyFile(kf)
    ensures |kf.groups| == 0 && |kf.decor| == 0
    ensures RenderKeyFile(kf) == ""
  {
    KeyFile([], [])
  }

  /** `get_group`: the group stored under `name`, if any. */
  function GetGroup(kf: KeyFile, name: string): (r: Option<Group>)
    ensures r.Some? <==> name in Keys(kf.groups)
    ensures r.Some? ==> (name, r.value) in kf.groups
    ensures ValidKeyFile(kf) && r.Some? ==> r.value.name == name
    ensures ValidKeyFile(kf) && r.Some? ==> ValidGroup(r.value)
  {
    Get(kf.groups, name)
  }

  /** Inserting a valid group under its own name keeps the map valid. */
  lemma InsertKeepsValid(gs: Entries<string, Group>, g: Group)
    requires ValidGroups(gs) && ValidGroup(g)
    ensures ValidGroups(Insert(gs, g.name, g).0)
  {
    var gs' := Insert(gs, g.name, g).0;
    if g.name in Keys(gs) {
      var i := IndexOf(gs, g.name).value;
      assert forall j :: 0 <= j < |gs'| ==> gs'[j] == (if j == i then (g.name, g) else gs[j]);
    } else {
      assert forall j :: 0 <= j < |gs'| ==> gs'[j] == (if j == |gs| then (g.name, g) else gs[j]);
    }
  }

  /** `insert_group`: the group is stored under its name. A new name is
      appended after all other groups; an existing name keeps its position
      and the group it held is returned. */
  function InsertGroup(kf: KeyFile, g: Group): (r: (KeyFile, Option<Group>))
    ensures r.0.decor == kf.decor
    ensures r.1 == GetGroup(kf, g.name)
    ensures GetGroup(r.0, g.name) == Some(g)
    ensures forall n :: n != g.name ==> GetGroup(r.0, n) == GetGroup(kf, n)
    ensures ValidKeyFile(kf) && ValidGroup(g) ==> ValidKeyFile(r.0)
    ensures r.1.None? ==> r.0.groups == kf.groups + [(g.name, g)]
    ensures r.1.Some? ==>
      var i := IndexOf(kf.groups, g.name).value;
      r.0.groups == kf.groups[i := (g.name, g)]
  {
    var (gs, prev) := Insert(kf.groups, g.name, g);
    GetAfterInsert(kf.groups, g.name, g);
    assert forall n :: n != g.name ==> Get(gs, n) == Get(kf.groups, n) by {
      forall n | n != g.name ensures Get(gs, n) == Get(kf.groups, n) {
        GetOtherAfterInsert(kf.groups, g.name, g, n);
      }
    }
    assert ValidKeyFile(kf) && ValidGroup(g) ==> ValidGroups(gs) by {
      if ValidKeyFile(kf) && ValidGroup(g) {
        InsertKeepsValid(kf.groups, g);
      }
    }
    (kf.(groups := gs), prev)
  }

  /** A group under a new name is rendered after everything that was there,
      but before the trailing decor. */
  lemma InsertGroupAppendRender(kf: KeyFile, g: Group)
    requires GetGroup(kf, g.name).None?
    ensures RenderKeyFile(InsertGroup(kf, g).0)
         == RenderGroups(kf.groups) + RenderGroup(g) + Unlines(kf.decor)
  {
    RenderGroupsConcat(kf.groups, [(g.name, g)]);
    assert RenderGroups([(g.name, g)]) == RenderGroup(g) by {
      assert [(g.name, g)][1..] == [];
    }
  }

  lemma RemoveKeepsValid(gs: Entries<string, Group>, name: string)
    requires ValidGroups(gs)
    ensures ValidGroups(ShiftRemove(gs, name).0)
  {
    var gs' := ShiftRemove(gs, name).0;
    if name in Keys(gs) {
      var i := IndexOf(gs, name).value;
      assert forall j :: 0 <= j < |gs'| ==> gs'[j] == (if j < i then gs[j] else gs[j + 1]);
    }
  }

  /** `remove_group`: removes and returns the group under `name`; the other
      groups keep their order. */
  function RemoveGroup(kf: KeyFile, name: string): (r: (KeyFile, Option<Group>))
    ensures r.0.decor == kf.decor
    ensures r.1 == GetGroup(kf, name)
    ensures forall n :: n != name ==> GetGroup(r.0, n) == GetGroup(kf, n)
    ensures ValidKeyFile(kf) ==> ValidKeyFile(r.0) && GetGroup(r.0, name) == None
    ensures ValidKeyFile(kf) ==> Keys(r.0.groups) == Without(Keys(kf.groups), name)
    ensures r.1.None? ==> r.0 == kf
  {
    var (gs, prev) := ShiftRemove(kf.groups, name);
    assert forall n :: n != name ==> Get(gs, n) == Get(kf.groups, n) by {
      forall n | n != name ensures Get(gs, n) == Get(kf.groups, n) {
        GetOtherAfterRemove(kf.groups, name, n);
      }
    }
    assert ValidKeyFile(kf) ==> ValidGroups(gs) by {
      if ValidKeyFile(kf) {
        RemoveKeepsValid(kf.groups, name);
      }
    }
    assert ValidKeyFile(kf) ==> Get(gs, name) == None && Keys(gs) == Without(Keys(kf.groups), name) by {
      if ValidKeyFile(kf) {
        GetAfterRemove(kf.groups, name);
        RemoveKeepsOrder(kf.groups, name);
      }
    }
    (kf.(groups := gs), prev)
  }

  /** The rendering after a removal: the removed group's text is cut out. */
  lemma RemoveGroupRender(kf: KeyFile, name: string)
    requires GetGroup(kf, name).Some?
    ensures var i := IndexOf(kf.groups, name).value;
      && RenderKeyFile(kf) == RenderGroups(kf.groups[..i]) + RenderGroup(kf.groups[i].1)
           + RenderGroups(kf.groups[i + 1..]) + Unlines(kf.decor)
      && RenderKeyFile(RemoveGroup(kf, name).0) == RenderGroups(kf.groups[..i])
           + RenderGroups(kf.groups[i + 1..]) + Unlines(kf.decor)
  {
    var i := IndexOf(kf.groups, name).value;
    RenderGroupsSplit(kf.groups, i);
    RenderGroupsConcat(kf.groups[..i], kf.groups[i + 1..]);
  }

  lemma RenderGroupsSplit(gs: Entries<string, Group>, i: nat)
    requires i < |gs|
    ensures RenderGroups(gs) == RenderGroups(gs[..i]) + RenderGroup(gs[i].1) + RenderGroups(gs[i + 1..])
  {
    var a, b := gs[..i], gs[i..];
    assert gs == a + b;
    RenderGroupsConcat(a, b);
    assert b[1..] == gs[i + 1..];
    assert b[0] == gs[i];
  }

  /** Inserts the groups one after another, as the loop of `into_owned` does. */
  function InsertGroups(acc: KeyFile, gs: seq<Group>): KeyFile
    decreases |gs|
  {
    if |gs| == 0 then acc else InsertGroups(InsertGroup(acc, GroupIntoOwned(gs[0])).0, gs[1..])
  }

  /** `KeyFile::into_owned`: a new key file with every group re-inserted in
      order, then the decor lines pushed. */
  function IntoOwned(kf: KeyFile): KeyFile
  {
    var owned := InsertGroups(New(), Values(kf.groups));
    owned.(decor := owned.decor + kf.decor)
  }

  /** A group under a new name is appended, and nothing else changes. */
  lemma InsertFreshGroup(kf: KeyFile, g: Group)
    requires g.name !in Keys(kf.groups)
    ensures InsertGroup(kf, g).0 == kf.(groups := kf.groups + [(g.name, g)])
  {
  }

  /** Re-inserting the next group of a valid map extends the prefix
      inserted so far by one. */
  lemma InsertNextGroup(gs: Entries<string, Group>, acc: KeyFile, i: nat) returns (acc': KeyFile)
    requires ValidGroups(gs)
    requires i < |gs| && acc.groups == gs[..i]
    ensures acc' == acc.(groups := gs[..i + 1])
    ensures InsertGroup(acc, GroupIntoOwned(gs[i].1)).0 == acc'
  {
    var g := gs[i].1;
    acc' := acc.(groups := gs[..i + 1]);
    NextGroupIsFresh(gs, i);
    assert GroupIntoOwned(g) == g by {
      GroupIntoOwnedIdentity(g);
    }
    InsertFreshGroup(acc, g);
  }

  /** The next group of a valid map has a name not used before it, and
      extends the prefix by its own entry. */
  lemma NextGroupIsFresh(gs: Entries<string, Group>, i: nat)
    requires ValidGroups(gs) && i < |gs|
    ensures gs[i].1.name !in Keys(gs[..i])
    ensures gs[..i + 1] == gs[..i] + [(gs[i].1.name, gs[i].1)]
  {
    forall j | 0 <= j < i ensures gs[..i][j].0 != gs[i].1.name {
      assert gs[..i][j] == gs[j];
    }
    assert gs[i] == (gs[i].1.name, gs[i].1);
  }

  lemma {:induction false} InsertGroupsRebuilds(gs: Entries<string, Group>, acc: KeyFile, i: nat)
    requires ValidGroups(gs)
    requires i <= |gs| && acc.groups == gs[..i]
    ensures InsertGroups(acc, Values(gs)[i..]).groups == gs
    ensures InsertGroups(acc, Values(gs)[i..]).decor == acc.decor
    decreases |gs| - i
  {
    if i < |gs| {
      var vs := Values(gs)[i..];
      assert vs[0] == gs[i].1 && vs[1..] == Values(gs)[i + 1..];
      var acc' := InsertNextGroup(gs, acc, i);
      InsertGroupsRebuilds(gs, acc', i + 1);
    } else {
      assert gs[..i] == gs;
    }
  }

  /** `into_owned` gives back an equal key file, hence an identical rendering. */
  lemma IntoOwnedIdentity(kf: KeyFile)
    requires ValidKeyFile(kf)
    ensures IntoOwned(kf) == kf
    ensures RenderKeyFile(IntoOwned(kf)) == RenderKeyFile(kf)
  {
    InsertGroupsRebuilds(kf.groups, New(), 0);
    assert Values(kf.groups)[0..] == Values(kf.groups);
  }
}
