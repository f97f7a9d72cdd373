/** What outfit reconciliation and the outfit validity rule compute, stated on
    values. The editor's objects (outfit_editor.dfy) are proved to reach
    exactly these values. */
module OutfitSpec {
  import opened Engine

  /** Outfit slots per character: Spring, Summer, Autumn, Winter. */
  const OUTFIT_AMOUNT: nat := 4

  /** A CharacterOutfitRenderer's data: per material slot of its renderer, the
      override material and the "use game shader" flag. None is a null array. */
  datatype ContainerData = ContainerData(materials: Option<seq<Option<MatRef>>>, useShader: Option<seq<bool>>)

  /** A container just added as a component: both arrays null. */
  const EmptyContainer: ContainerData := ContainerData(None, None)

  /** A CharacterOutfit's data: which renderers it shows, and one material
      container per renderer (a container slot may be null). */
  datatype OutfitData = OutfitData(enabled: Option<seq<bool>>, containers: Option<seq<Option<ContainerData>>>)

  /** An outfit just added as a component: both arrays null. */
  const EmptyOutfit: OutfitData := OutfitData(None, None)

  /** A character's Outfits array: itself nullable, with nullable slots. */
  type CharacterData = Option<seq<Option<OutfitData>>>

  // ---------------------------------------------------------------------
  // Reconciliation
  // ---------------------------------------------------------------------

  /** The container's Materials after reconciling against a non-null renderer
      with M shared materials. */
  function ReconcileMaterials(m: Option<seq<Option<MatRef>>>, r: Renderer): (m': Option<seq<Option<MatRef>>>)
    ensures m'.Some? && |m'.value| == |r.sharedMaterials|
    ensures m.None? ==> m'.value == r.sharedMaterials
    ensures m.Some? && |m.value| == |r.sharedMaterials| ==> m' == m
    ensures m.Some? ==> m'.value[..Min(|m.value|, |r.sharedMaterials|)] == m.value[..Min(|m.value|, |r.sharedMaterials|)]
    ensures m.Some? ==> forall i | |m.value| <= i < |r.sharedMaterials| :: m'.value[i] == None
  {
    match m
    case None => Some(r.sharedMaterials)
    case Some(s) => ResizedToOwnLength(s, None); Some(Resized(s, |r.sharedMaterials|, None))
  }

  /** The container's UseShaderForMaterial after reconciling against a
      non-null renderer with M shared materials. A null array becomes M `true`
      flags; a resized one gets `false` in its new slots. */
  function ReconcileShaderFlags(u: Option<seq<bool>>, r: Renderer): (u': Option<seq<bool>>)
    ensures u'.Some? && |u'.value| == |r.sharedMaterials|
    ensures u.None? ==> forall i | 0 <= i < |u'.value| :: u'.value[i]
    ensures u.Some? && |u.value| == |r.sharedMaterials| ==> u' == u
    ensures u.Some? ==> u'.value[..Min(|u.value|, |r.sharedMaterials|)] == u.value[..Min(|u.value|, |r.sharedMaterials|)]
    ensures u.Some? ==> forall i | |u.value| <= i < |r.sharedMaterials| :: !u'.value[i]
  {
    match u
    case None => Some(seq(|r.sharedMaterials|, _ => true))
    case Some(s) => ResizedToOwnLength(s, false); Some(Resized(s, |r.sharedMaterials|, false))
  }

  /** A container slot after reconciliation: untouched when its renderer is
      null, otherwise sized to the renderer's material count. */
  function ReconcileContainer(c: ContainerData, r: Option<Renderer>): (c': ContainerData)
    ensures ContainerConsistent(c', r)
    ensures r.None? ==> c' == c
  {
    match r
    case None => c
    case Some(rd) => ContainerData(ReconcileMaterials(c.materials, rd), ReconcileShaderFlags(c.useShader, rd))
  }

  /** The container an outfit has at index i once null and missing slots have
      been filled with new, empty containers. */
  function ContainerAt(cs: Option<seq<Option<ContainerData>>>, i: nat): ContainerData {
    if cs.Some? && i < |cs.value| && cs.value[i].Some? then cs.value[i].value else EmptyContainer
  }

  /** An outfit after reconciliation against the renderer list `rs`: one
      enabled flag and one non-null container per renderer, each container
      fitting its renderer. */
  function ReconcileOutfit(o: OutfitData, rs: seq<Option<Renderer>>): (o': OutfitData)
    ensures OutfitConsistent(o', rs)
  {
    OutfitData(
      Some(Resized(o.enabled.GetOr([]), |rs|, false)),
      Some(seq(|rs|, i requires 0 <= i < |rs| => Some(ReconcileContainer(ContainerAt(o.containers, i), rs[i])))))
  }

  /** The outfit a character has in slot i once null and missing slots have
      been filled with new, empty outfits. */
  function OutfitAt(os: CharacterData, i: nat): OutfitData {
    if os.Some? && i < |os.value| && os.value[i].Some? then os.value[i].value else EmptyOutfit
  }

  /** A character's Outfits after reconciliation: exactly OUTFIT_AMOUNT
      outfits, each reconciled against `rs`, so that the character fits the
      renderer list whatever its Outfits array was before. */
  function ReconcileCharacter(os: CharacterData, rs: seq<Option<Renderer>>): (os': CharacterData)
    ensures CharacterConsistent(os', rs)
  {
    Some(seq(OUTFIT_AMOUNT, i requires 0 <= i < OUTFIT_AMOUNT => Some(ReconcileOutfit(OutfitAt(os, i), rs))))
  }

  // ---------------------------------------------------------------------
  // The structural invariants reconciliation establishes
  // ---------------------------------------------------------------------

  /** A container fits its renderer: for a non-null renderer with M shared
      materials both arrays are set and have length M. */
  predicate ContainerConsistent(c: ContainerData, r: Option<Renderer>) {
    r.Some? ==>
      && c.materials.Some? && |c.materials.value| == |r.value.sharedMaterials|
      && c.useShader.Some? && |c.useShader.value| == |r.value.sharedMaterials|
  }

  /** An outfit fits the renderer list: one enabled flag and one non-null
      container per renderer, each container fitting its renderer. */
  predicate OutfitConsistent(o: OutfitData, rs: seq<Option<Renderer>>) {
    && o.enabled.Some? && |o.enabled.value| == |rs|
    && o.containers.Some? && |o.containers.value| == |rs|
    && forall i | 0 <= i < |rs| :: o.containers.value[i].Some? && ContainerConsistent(o.containers.value[i].value, rs[i])
  }

  /** A character fits the renderer list: exactly OUTFIT_AMOUNT non-null
      outfits, each fitting. */
  predicate CharacterConsistent(os: CharacterData, rs: seq<Option<Renderer>>) {
    && os.Some? && |os.value| == OUTFIT_AMOUNT
    && forall i | 0 <= i < OUTFIT_AMOUNT :: os.value[i].Some? && OutfitConsistent(os.value[i].value, rs)
  }

  /** A container that already fits is left as it is. */
  lemma ContainerFixedPoint(c: ContainerData, r: Option<Renderer>)
    requires ContainerConsistent(c, r)
    ensures ReconcileContainer(c, r) == c
  {
  }

  /** An outfit that already fits is left as it is. */
  lemma OutfitFixedPoint(o: OutfitData, rs: seq<Option<Renderer>>)
    requires OutfitConsistent(o, rs)
    ensures ReconcileOutfit(o, rs) == o
  {
    var o' := ReconcileOutfit(o, rs);
    ResizedToOwnLength(o.enabled.value, false);
    forall i | 0 <= i < |rs|
      ensures o'.containers.value[i] == o.containers.value[i]
    {
      assert ContainerAt(o.containers, i) == o.containers.value[i].value;
      ContainerFixedPoint(o.containers.value[i].value, rs[i]);
    }
    assert o'.containers.value == o.containers.value;
  }

  /** A character that already fits is left as it is. */
  lemma CharacterFixedPoint(os: CharacterData, rs: seq<Option<Renderer>>)
    requires CharacterConsistent(os, rs)
    ensures ReconcileCharacter(os, rs) == os
  {
    var os' := ReconcileCharacter(os, rs);
    forall i | 0 <= i < OUTFIT_AMOUNT
      ensures os'.value[i] == os.value[i]
    {
      assert OutfitAt(os, i) == os.value[i].value;
      OutfitFixedPoint(os.value[i].value, rs);
    }
    assert os'.value == os.value;
  }

  /** Reconciliation is idempotent: a second pass with the same renderer
      list changes nothing. */
  lemma ReconcileIdempotent(os: CharacterData, rs: seq<Option<Renderer>>)
    ensures ReconcileCharacter(ReconcileCharacter(os, rs), rs) == ReconcileCharacter(os, rs)
  {
    CharacterFixedPoint(ReconcileCharacter(os, rs), rs);
  }

  /** EnabledRenderers is resized to the renderer count: shared indices keep
      their values and every new entry is false. */
  lemma ReconcileEnabledRenderers(o: OutfitData, rs: seq<Option<Renderer>>, i: nat)
    requires i < |rs|
    ensures |ReconcileOutfit(o, rs).enabled.value| == |rs|
    ensures ReconcileOutfit(o, rs).enabled.value[i] == (o.enabled.Some? && i < |o.enabled.value| && o.enabled.value[i])
  {
    var e := o.enabled.GetOr([]);
    if i < |e| {
      assert Resized(e, |rs|, false)[..Min(|e|, |rs|)][i] == e[..Min(|e|, |rs|)][i];
    }
  }

  /** The container slot of a null renderer keeps its data (or is a new,
      empty container if the slot was null or missing). */
  lemma NullRendererSlotUntouched(o: OutfitData, rs: seq<Option<Renderer>>, i: nat)
    requires i < |rs| && rs[i].None?
    ensures ReconcileOutfit(o, rs).containers.value[i] == Some(ContainerAt(o.containers, i))
  {
  }

  /** A container slot that was null or missing and whose renderer is non-null
      is seeded from the renderer: its shared materials, all flags true. */
  lemma NewContainerSeeded(o: OutfitData, rs: seq<Option<Renderer>>, i: nat)
    requires i < |rs| && rs[i].Some?
    requires o.containers.None? || i >= |o.containers.value| || o.containers.value[i].None?
    ensures ReconcileOutfit(o, rs).containers.value[i].value.materials == Some(rs[i].value.sharedMaterials)
    ensures ReconcileOutfit(o, rs).containers.value[i].value.useShader == Some(seq(|rs[i].value.sharedMaterials|, _ => true))
  {
  }

  /** Growing the renderer list by one keeps all data of a fitting outfit and
      appends a disabled renderer with a new container. */
  lemma GrowthPreservesData(o: OutfitData, rs: seq<Option<Renderer>>, r: Option<Renderer>)
    requires OutfitConsistent(o, rs)
    ensures ReconcileOutfit(o, rs + [r]).enabled == Some(o.enabled.value + [false])
    ensures ReconcileOutfit(o, rs + [r]).containers == Some(o.containers.value + [Some(ReconcileContainer(EmptyContainer, r))])
  {
    var o' := ReconcileOutfit(o, rs + [r]);
    assert o'.enabled.value == o.enabled.value + [false] by {
      assert Resized(o.enabled.value, |rs| + 1, false)[..|rs|] == o.enabled.value[..|rs|];
    }
    forall i | 0 <= i < |rs|
      ensures o'.containers.value[i] == o.containers.value[i]
    {
      assert (rs + [r])[i] == rs[i];
      assert ContainerAt(o.containers, i) == o.containers.value[i].value;
      ContainerFixedPoint(o.containers.value[i].value, rs[i]);
    }
    assert ContainerAt(o.containers, |rs|) == EmptyContainer;
    assert o'.containers.value == o.containers.value + [Some(ReconcileContainer(EmptyContainer, r))];
  }

  /** Shrinking the renderer list to its first j entries cuts a fitting outfit
      down to its first j entries and changes nothing else. */
  lemma ShrinkKeepsPrefix(o: OutfitData, rs: seq<Option<Renderer>>, j: nat)
    requires OutfitConsistent(o, rs) && j <= |rs|
    ensures ReconcileOutfit(o, rs[..j]) == OutfitData(Some(o.enabled.value[..j]), Some(o.containers.value[..j]))
  {
    var o' := ReconcileOutfit(o, rs[..j]);
    assert o'.enabled.value == o.enabled.value[..j] by {
      assert Resized(o.enabled.value, j, false)[..j] == o.enabled.value[..j];
    }
    forall i | 0 <= i < j
      ensures o'.containers.value[i] == o.containers.value[..j][i]
    {
      assert ContainerAt(o.containers, i) == o.containers.value[i].value;
      ContainerFixedPoint(o.containers.value[i].value, rs[i]);
    }
    assert o'.containers.value == o.containers.value[..j];
  }

  // ---------------------------------------------------------------------
  // The outfit validity rule
  // ---------------------------------------------------------------------

  /** Some material slot of the container is unset. */
  predicate HasMissingMaterial(c: ContainerData) {
    c.materials.Some? && None in c.materials.value
  }

  /** The error flag of (outfit, renderer r): r is non-null, shown by the
      outfit, and one of its material slots is unset. */
  predicate ErrorFlag(o: OutfitData, rs: seq<Option<Renderer>>, r: nat)
    requires OutfitConsistent(o, rs) && r < |rs|
  {
    rs[r].Some? && o.enabled.value[r] && HasMissingMaterial(o.containers.value[r].value)
  }

  /** An outfit is valid when every renderer is non-null and no enabled
      renderer has an unset material slot: exactly when no renderer is null
      and no renderer's error flag is raised. */
  predicate OutfitValid(o: OutfitData, rs: seq<Option<Renderer>>): (valid: bool)
    requires OutfitConsistent(o, rs)
    ensures valid <==> (forall r | 0 <= r < |rs| :: rs[r].Some?) && (forall r | 0 <= r < |rs| :: !ErrorFlag(o, rs, r))
  {
    assert (forall r | 0 <= r < |rs| :: !ErrorFlag(o, rs, r)) ==>
             forall r | 0 <= r < |rs| && rs[r].Some? :: !(o.enabled.value[r] && HasMissingMaterial(o.containers.value[r].value)) by {
      if forall r | 0 <= r < |rs| :: !ErrorFlag(o, rs, r) {
        forall r | 0 <= r < |rs| && rs[r].Some?
          ensures !(o.enabled.value[r] && HasMissingMaterial(o.containers.value[r].value))
        {
          assert !ErrorFlag(o, rs, r);
        }
      }
    }
    forall r | 0 <= r < |rs| :: rs[r].Some? && !(o.enabled.value[r] && HasMissingMaterial(o.containers.value[r].value))
  }

  /** The outfit's row of error flags after a validity pass that started from
      `prior`: the flag of a null renderer is left as it was. */
  function ErrorRow(o: OutfitData, rs: seq<Option<Renderer>>, prior: seq<bool>): (row: seq<bool>)
    requires OutfitConsistent(o, rs) && |prior| == |rs|
    ensures |row| == |rs|
  {
    seq(|rs|, r requires 0 <= r < |rs| => if rs[r].None? then prior[r] else ErrorFlag(o, rs, r))
  }

  /** A character is ready to be built when all of its outfits are valid. */
  predicate CharacterValid(os: CharacterData, rs: seq<Option<Renderer>>)
    requires CharacterConsistent(os, rs)
  {
    forall i | 0 <= i < OUTFIT_AMOUNT :: OutfitValid(os.value[i].value, rs)
  }

  /** Validity and the error flags agree: an outfit is valid exactly when no
      renderer is null and no error flag is raised. */
  lemma ValidIffNoNullRendererAndNoFlag(o: OutfitData, rs: seq<Option<Renderer>>, prior: seq<bool>)
    requires OutfitConsistent(o, rs) && |prior| == |rs|
    ensures OutfitValid(o, rs) <==>
      (forall r | 0 <= r < |rs| :: rs[r].Some?) && (forall r | 0 <= r < |rs| :: !ErrorRow(o, rs, prior)[r])
  {
    if (forall r | 0 <= r < |rs| :: rs[r].Some?) && (forall r | 0 <= r < |rs| :: !ErrorRow(o, rs, prior)[r]) {
      forall r | 0 <= r < |rs|
        ensures rs[r].Some? && !(o.enabled.value[r] && HasMissingMaterial(o.containers.value[r].value))
      {
        assert !ErrorRow(o, rs, prior)[r];
      }
    }
  }

  /** A null renderer makes the outfit invalid but leaves its error flag as
      it was. */
  lemma NullRendererInvalidates(o: OutfitData, rs: seq<Option<Renderer>>, prior: seq<bool>, r: nat)
    requires OutfitConsistent(o, rs) && |prior| == |rs| && r < |rs| && rs[r].None?
    ensures !OutfitValid(o, rs)
    ensures ErrorRow(o, rs, prior)[r] == prior[r]
  {
  }

  /** Whatever a disabled renderer's container holds, the outfit's validity
      does not depend on it. */
  lemma DisabledRendererNeverInvalidates(o: OutfitData, rs: seq<Option<Renderer>>, r: nat, c: ContainerData)
    requires OutfitConsistent(o, rs) && r < |rs| && !o.enabled.value[r]
    requires ContainerConsistent(c, rs[r])
    ensures OutfitConsistent(o.(containers := Some(o.containers.value[r := Some(c)])), rs)
    ensures OutfitValid(o.(containers := Some(o.containers.value[r := Some(c)])), rs) == OutfitValid(o, rs)
  {
    var o' := o.(containers := Some(o.containers.value[r := Some(c)]));
    assert forall k | 0 <= k < |rs| && k != r :: o'.containers.value[k] == o.containers.value[k];
  }
}
