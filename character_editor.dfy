/** The character definition component and the parts of its inspector that
    are not presentation: ValidateOutfits, which repairs the outfit data after
    the renderer list changed, and the validity pass over the outfits.
    Line numbers in this module refer to CharacterDefinitionEditor.cs. */
module CharacterEditor {
  import opened Engine
  import opened OutfitSpec
  import opened OutfitEditor

  /** CharacterDefinition: the component on a character's root. */
  class CharacterDefinition {
    /** The character's SkinnedMeshRenderers; a slot may be unassigned. */
    var Renderers: seq<Option<Renderer>>
    var Outfits: array?<CharacterOutfit?>

    constructor (renderers: seq<Option<Renderer>>)
      ensures Renderers == renderers && Outfits == null
    {
      Renderers := renderers;
      Outfits := null;
    }

    /** Slot i survives ValidateOutfits and holds an outfit. */
    ghost predicate IsKept(i: int)
      reads this, Outfits
    {
      Outfits != null && 0 <= i < Outfits.Length && i < OUTFIT_AMOUNT && Outfits[i] != null
    }

    /** The outfits in the slots ValidateOutfits keeps. */
    ghost function Kept(): set<CharacterOutfit>
      reads this, Outfits
    {
      set i | 0 <= i < OUTFIT_AMOUNT && IsKept(i) :: Outfits[i]
    }

    /** Everything the kept outfits own. */
    ghost function KeptRepr(): set<object>
      reads this, Outfits, Kept()
    {
      set o, x | o in Kept() && x in o.Repr :: x
    }

    /** Every outfit owns its parts: no outfit sits in two slots, each kept
        outfit is well formed, owns neither this component nor its Outfits
        array, and shares nothing with another kept outfit. */
    ghost predicate ComponentsSeparate()
      reads this, Outfits, Kept(), KeptRepr()
    {
      Outfits != null ==>
        && (forall i, j | 0 <= i < j < Outfits.Length :: Outfits[i] != null ==> Outfits[i] != Outfits[j])
        && (forall i | IsKept(i) ::
              assert Outfits[i] in Kept();
              && Outfits[i].Valid()
              && this !in Outfits[i].Repr
              && Outfits !in Outfits[i].Repr)
        && (forall i, j | IsKept(i) && IsKept(j) && i != j ::
              assert Outfits[i] in Kept() && Outfits[j] in Kept();
              Outfits[i].Repr !! Outfits[j].Repr)
    }

    /** ComponentsSeparate, slot by slot, for a full Outfits array. */
    ghost predicate SlotsSeparate()
      reads this, Outfits, Kept(), KeptRepr()
    {
      && Outfits != null && Outfits.Length == OUTFIT_AMOUNT
      && (forall i | 0 <= i < OUTFIT_AMOUNT ::
            && Outfits[i] != null
            && assert Outfits[i] in Kept();
               && Outfits[i].Valid()
               && this !in Outfits[i].Repr && Outfits !in Outfits[i].Repr)
      && (forall i, j | 0 <= i < OUTFIT_AMOUNT && 0 <= j < OUTFIT_AMOUNT && i != j ::
            Outfits[i].Repr !! Outfits[j].Repr)
    }

    /** For a full Outfits array, ComponentsSeparate holds exactly when it
        holds slot by slot. */
    lemma SlotsSeparateIff()
      requires Outfits != null && Outfits.Length == OUTFIT_AMOUNT
      requires forall i | 0 <= i < OUTFIT_AMOUNT :: Outfits[i] != null
      ensures ComponentsSeparate() <==> SlotsSeparate()
    {
      if SlotsSeparate() {
        forall i, j | 0 <= i < j < Outfits.Length
          ensures Outfits[i] != Outfits[j]
        {
          assert Outfits[i] in Outfits[i].Repr;
        }
      }
    }

    /** The outfit data the kept slots hold, as a value: the first
        OUTFIT_AMOUNT slots of Outfits. */
    ghost function Snapshot(): CharacterData
      requires ComponentsSeparate()
      reads this, Outfits, Kept(), KeptRepr()
    {
      if Outfits == null then None
      else
        var slots := Outfits;
        Some(seq(Min(slots.Length, OUTFIT_AMOUNT), i requires 0 <= i < Min(slots.Length, OUTFIT_AMOUNT)
                   && slots == Outfits && ComponentsSeparate()
                   reads this, Outfits, Kept(), KeptRepr() =>
               if slots[i] == null then None
               else
                 assert IsKept(i) && slots[i] in Kept();
                 Some(slots[i].Data())))
    }

    /** The container arrays of the kept outfits (None for a null array or
        an empty or missing slot). */
    ghost function KeptContainerSlots(): (r: seq<Option<seq<CharacterOutfitRenderer?>>>)
      requires ComponentsSeparate()
      reads this, Outfits, Kept(), KeptRepr()
      ensures |r| == OUTFIT_AMOUNT
    {
      var slots := Outfits;
      seq(OUTFIT_AMOUNT, i requires 0 <= i && slots == Outfits && ComponentsSeparate() reads this, Outfits, Kept(), KeptRepr() =>
        if IsKept(i) then assert Outfits[i] in Kept(); Outfits[i].ContainerSlots() else None)
    }

    /** Slot-by-slot ownership facts for a full Outfits array establish
        ComponentsSeparate. */
    lemma SeparateFromSlots()
      requires Outfits != null && Outfits.Length == OUTFIT_AMOUNT
      requires forall i | 0 <= i < OUTFIT_AMOUNT ::
                 && Outfits[i] != null && Outfits[i].Valid()
                 && this !in Outfits[i].Repr && Outfits !in Outfits[i].Repr
      requires forall a, b | 0 <= a < OUTFIT_AMOUNT && 0 <= b < OUTFIT_AMOUNT && a != b :: Outfits[a].Repr !! Outfits[b].Repr
      ensures SlotsSeparate() && ComponentsSeparate()
    {
      SlotsSeparateIff();
    }

    /** The snapshot of a full, separate Outfits array is the outfit data
        `os` when slot by slot its outfits hold that data. */
    lemma SnapshotOfFull(os: CharacterData)
      requires SlotsSeparate() && ComponentsSeparate()
      requires os.Some? && |os.value| == OUTFIT_AMOUNT
      requires forall i | 0 <= i < OUTFIT_AMOUNT :: os.value[i] == Some(Outfits[i].Data())
      ensures Snapshot() == os
    {
      assert Snapshot().Some? && |Snapshot().value| == OUTFIT_AMOUNT;
      forall i | 0 <= i < OUTFIT_AMOUNT
        ensures Snapshot().value[i] == os.value[i]
      {
        assert IsKept(i);
      }
      assert Snapshot().value == os.value;
    }

    /** Slot i of the snapshot of a full, separate Outfits array is the data
        of the outfit in slot i. */
    lemma SnapshotAt(i: nat)
      requires SlotsSeparate() && ComponentsSeparate() && i < OUTFIT_AMOUNT
      ensures Snapshot().Some? && |Snapshot().value| == OUTFIT_AMOUNT
      ensures Snapshot().value[i] == Some(Outfits[i].Data())
    {
      assert IsKept(i);
    }

    /** A character with OUTFIT_AMOUNT outfit slots that already fit the
        renderer list holds nothing for ValidateOutfits to release. */
    lemma NothingToReleaseWhenConsistent()
      requires ComponentsSeparate() && Outfits != null && Outfits.Length == OUTFIT_AMOUNT
      requires CharacterConsistent(Snapshot(), Renderers)
      ensures SurplusOutfits() == []
      ensures ReleasedContainers(KeptContainerSlots(), |Renderers|) == []
    {
      var slots := KeptContainerSlots();
      forall i | 0 <= i < OUTFIT_AMOUNT
        ensures slots[i].None? || |slots[i].value| <= |Renderers|
      {
        if Outfits[i] != null {
          assert IsKept(i) && Outfits[i] in Kept();
          assert Snapshot().value[i] == Some(Outfits[i].Data());
        }
      }
      NothingReleasedFromShortSlots(slots, |Renderers|);
    }

    /** What the snapshot and the container slots say about each slot. */
    lemma SlotFacts()
      requires ComponentsSeparate()
      ensures forall i | 0 <= i < OUTFIT_AMOUNT ::
                if IsKept(i) then
                  OutfitAt(Snapshot(), i) == Outfits[i].Data() && KeptContainerSlots()[i] == Outfits[i].ContainerSlots()
                else
                  OutfitAt(Snapshot(), i) == EmptyOutfit && KeptContainerSlots()[i] == None
    {
    }

    /** The outfit in each of the first OUTFIT_AMOUNT slots; null for an
        empty or missing slot. */
    ghost function KeptSlots(): (r: seq<CharacterOutfit?>)
      reads this, Outfits
      ensures |r| == OUTFIT_AMOUNT
      ensures forall i | 0 <= i < OUTFIT_AMOUNT :: r[i] == if IsKept(i) then Outfits[i] else null
    {
      seq(OUTFIT_AMOUNT, i requires 0 <= i reads this, Outfits => if IsKept(i) then Outfits[i] else null)
    }

    /** Slot by slot, each kept outfit is well formed, owns neither this
        component, its Outfits array nor `other`, and holds the data of the
        snapshot and the container arrays KeptContainerSlots lists; the kept
        outfits share nothing. */
    lemma KeptSlotFacts(data: seq<OutfitData>, slots: seq<Option<seq<CharacterOutfitRenderer?>>>, other: object)
      requires ComponentsSeparate()
      requires forall i | IsKept(i) :: other !in Outfits[i].Repr
      requires |data| == OUTFIT_AMOUNT && forall j | 0 <= j < OUTFIT_AMOUNT :: data[j] == OutfitAt(Snapshot(), j)
      requires slots == KeptContainerSlots()
      ensures forall i | 0 <= i < OUTFIT_AMOUNT ::
                if KeptSlots()[i] != null then
                  && KeptSlots()[i].Valid() && KeptSlots()[i].Repr <= KeptRepr()
                  && other !in KeptSlots()[i].Repr && this !in KeptSlots()[i].Repr && Outfits !in KeptSlots()[i].Repr
                  && KeptSlots()[i].Data() == data[i] && KeptSlots()[i].ContainerSlots() == slots[i]
                else data[i] == EmptyOutfit && slots[i] == None
      ensures forall a, b | 0 <= a < OUTFIT_AMOUNT && 0 <= b < OUTFIT_AMOUNT && a != b && KeptSlots()[a] != null && KeptSlots()[b] != null ::
                KeptSlots()[a].Repr !! KeptSlots()[b].Repr
      ensures other !in KeptRepr() && this !in KeptRepr() && Outfits !in KeptRepr()
    {
      SlotFacts();
      assert forall i | 0 <= i < OUTFIT_AMOUNT && IsKept(i) :: Outfits[i] in Kept();
    }

    /** The outfits ValidateOutfits releases: those above the last kept slot,
        from the top index down. */
    ghost function SurplusOutfits(): seq<CharacterOutfit?>
      reads this, Outfits
    {
      if Outfits == null then [] else Surplus(Outfits[..], OUTFIT_AMOUNT)
    }
  }

  /** An error row for `n` renderers with no flag raised. */
  function NoErrors(n: nat): (row: seq<bool>)
    ensures |row| == n && forall r | 0 <= r < n :: !row[r]
  {
    seq(n, _ => false)
  }

  /** The containers released when reconciling, one after another, outfits
      whose container arrays are `slots`, against `n` renderers. */
  function ReleasedContainers(slots: seq<Option<seq<CharacterOutfitRenderer?>>>, n: nat): seq<CharacterOutfitRenderer?>
  {
    if slots == [] then [] else ReleasedContainers(slots[..|slots| - 1], n) + SurplusOf(slots[|slots| - 1], n)
  }

  lemma ReleasedContainersStep(slots: seq<Option<seq<CharacterOutfitRenderer?>>>, k: nat, n: nat)
    requires k < |slots|
    ensures ReleasedContainers(slots[..k + 1], n) == ReleasedContainers(slots[..k], n) + SurplusOf(slots[k], n)
  {
    assert slots[..k + 1][..k] == slots[..k];
  }

  /** Nothing is released from container arrays no longer than the
      renderer list. */
  lemma {:induction false} NothingReleasedFromShortSlots(slots: seq<Option<seq<CharacterOutfitRenderer?>>>, n: nat)
    requires forall i | 0 <= i < |slots| :: slots[i].None? || |slots[i].value| <= n
    ensures ReleasedContainers(slots, n) == []
  {
    if slots != [] {
      NothingReleasedFromShortSlots(slots[..|slots| - 1], n);
    }
  }

  /** The inspector of a CharacterDefinition (CharacterDefinitionEditor). */
  class CharacterDefinitionEditor {
    const target: CharacterDefinition
    /** Components removed with DestroyImmediate, in the order removed. */
    ghost var released: seq<object?>
    /** _errorOutfits: per outfit and renderer, "this mesh has missing
        materials". A row not yet allocated is empty. */
    var errorOutfits: seq<seq<bool>>

    /** The inspector as Initialize leaves it before its first
        ValidateOutfits: one unallocated error row per outfit. */
    constructor (target: CharacterDefinition)
      ensures this.target == target && released == []
      ensures errorOutfits == seq(OUTFIT_AMOUNT, _ => [])
    {
      this.target := target;
      released := [];
      errorOutfits := seq(OUTFIT_AMOUNT, _ => []);
    }

    /** Lines 214-226: Outfits becomes an OUTFIT_AMOUNT-long array; the
        outfits above the last kept slot are released from the top down. */
    method ResizeOutfits()
      modifies this`released, target`Outfits
      ensures target.Outfits != null
      ensures target.Outfits[..] == Resized(if old(target.Outfits) == null then [] else old(target.Outfits[..]), OUTFIT_AMOUNT, null)
      ensures released == old(released) + old(target.SurplusOutfits())
      ensures old(target.Outfits) != null && old(target.Outfits.Length) == OUTFIT_AMOUNT ==> target.Outfits == old(target.Outfits)
      ensures old(target.Outfits) == null || old(target.Outfits.Length) != OUTFIT_AMOUNT ==> fresh(target.Outfits)
    {
      if target.Outfits == null {
        target.Outfits := new CharacterOutfit?[OUTFIT_AMOUNT](_ => null);
        assert target.Outfits[..] == Resized([], OUTFIT_AMOUNT, null);
      } else if target.Outfits.Length != OUTFIT_AMOUNT {
        ghost var destroyed;
        target.Outfits, destroyed := ReleaseSurplusAndResize(target.Outfits, OUTFIT_AMOUNT, null);
        released := released + destroyed;
      } else {
        ResizedToOwnLength(target.Outfits[..], null);
      }
    }

    /** Lines 227-233: every null outfit slot gets a new outfit. */
    method FillOutfits()
      requires target.Outfits != null
      requires forall i, j | 0 <= i < j < target.Outfits.Length :: target.Outfits[i] != null ==> target.Outfits[i] != target.Outfits[j]
      modifies target.Outfits
      ensures forall i, j | 0 <= i < j < target.Outfits.Length :: target.Outfits[i] != target.Outfits[j]
      ensures forall i | 0 <= i < target.Outfits.Length ::
                if old(target.Outfits[i]) != null then target.Outfits[i] == old(target.Outfits[i])
                else
                  && fresh(target.Outfits[i]) && target.Outfits[i].Valid() && target.Outfits[i].Repr == {target.Outfits[i] as object}
                  && target.Outfits[i].Data() == EmptyOutfit && target.Outfits[i].ContainerSlots() == None
    {
      var outfits := target.Outfits;
      for i := 0 to outfits.Length
        invariant forall j | 0 <= j < i ::
                    if old(outfits[j]) != null then outfits[j] == old(outfits[j])
                    else
                      && fresh(outfits[j]) && outfits[j].Valid() && outfits[j].Repr == {outfits[j] as object}
                      && outfits[j].Data() == EmptyOutfit && outfits[j].ContainerSlots() == None
        invariant forall j | i <= j < outfits.Length :: outfits[j] == old(outfits[j])
        invariant forall a, b | 0 <= a < b < outfits.Length :: outfits[a] != null ==> outfits[a] != outfits[b]
      {
        if outfits[i] == null {
          outfits[i] := new CharacterOutfit();
        }
      }
    }

    /** One pass of the loop at lines 235-301: outfit `o`, the k-th of the
        outfits `os`, is reconciled against `renderers` and its error row is
        reset; the other outfits keep their data. No outfit owns this
        inspector, the target or `arr` (the Outfits array). */
    method ReconcileAt(o: CharacterOutfit, k: nat, renderers: seq<Option<Renderer>>,
                       ghost os: seq<CharacterOutfit?>, ghost arr: object)
        returns (ghost destroyed: seq<CharacterOutfitRenderer?>)
      requires |os| == OUTFIT_AMOUNT && k < OUTFIT_AMOUNT && os[k] == o
      requires forall j | 0 <= j < OUTFIT_AMOUNT ::
                 os[j] != null && os[j].Valid() && this !in os[j].Repr && target !in os[j].Repr && arr !in os[j].Repr
      requires forall a, b | 0 <= a < OUTFIT_AMOUNT && 0 <= b < OUTFIT_AMOUNT && a != b :: os[a].Repr !! os[b].Repr
      requires k < |errorOutfits|
      modifies this`errorOutfits, o.Repr
      ensures errorOutfits == old(errorOutfits)[k := NoErrors(|renderers|)]
      ensures forall j | 0 <= j < OUTFIT_AMOUNT ::
                os[j].Valid() && this !in os[j].Repr && target !in os[j].Repr && arr !in os[j].Repr
      ensures forall a, b | 0 <= a < OUTFIT_AMOUNT && 0 <= b < OUTFIT_AMOUNT && a != b :: os[a].Repr !! os[b].Repr
      ensures fresh(o.Repr - old(o.Repr))
      ensures o.Data() == ReconcileOutfit(old(o.Data()), renderers)
      ensures destroyed == SurplusOf(old(o.ContainerSlots()), |renderers|)
      ensures forall j | 0 <= j < OUTFIT_AMOUNT && j != k ::
                && os[j].Repr == old(os[j].Repr)
                && os[j].Data() == old(os[j].Data())
                && os[j].ContainerSlots() == old(os[j].ContainerSlots())
    {
      errorOutfits := errorOutfits[k := NoErrors(|renderers|)];
      destroyed := o.Reconcile(renderers);
    }

    /** Lines 235-301: reconcile each of the OUTFIT_AMOUNT outfits `os` in
        `outfits` against the renderer list and reset its error row. Returns
        the containers released, outfit after outfit. */
    method ReconcileOutfits(outfits: array<CharacterOutfit?>, renderers: seq<Option<Renderer>>, ghost os: seq<CharacterOutfit?>,
                            ghost slots: seq<Option<seq<CharacterOutfitRenderer?>>>,
                            ghost before: seq<OutfitData>, ghost fp: set<object>)
        returns (ghost destroyed: seq<CharacterOutfitRenderer?>)
      requires outfits.Length == OUTFIT_AMOUNT && outfits[..] == os && |slots| == OUTFIT_AMOUNT && |before| == OUTFIT_AMOUNT
      requires this !in fp && target !in fp && outfits !in fp
      requires forall j | 0 <= j < OUTFIT_AMOUNT ::
                 && os[j] != null && os[j].Valid() && os[j].Repr <= fp
                 && this !in os[j].Repr && target !in os[j].Repr && outfits !in os[j].Repr
      requires forall a, b | 0 <= a < OUTFIT_AMOUNT && 0 <= b < OUTFIT_AMOUNT && a != b :: os[a].Repr !! os[b].Repr
      requires forall j | 0 <= j < OUTFIT_AMOUNT :: os[j].ContainerSlots() == slots[j] && os[j].Data() == before[j]
      requires |errorOutfits| == OUTFIT_AMOUNT
      modifies this`errorOutfits, fp
      ensures outfits[..] == os
      ensures forall j | 0 <= j < OUTFIT_AMOUNT ::
                os[j].Valid() && this !in os[j].Repr && target !in os[j].Repr && outfits !in os[j].Repr
      ensures forall a, b | 0 <= a < OUTFIT_AMOUNT && 0 <= b < OUTFIT_AMOUNT && a != b :: os[a].Repr !! os[b].Repr
      ensures errorOutfits == seq(OUTFIT_AMOUNT, _ => NoErrors(|renderers|))
      ensures destroyed == ReleasedContainers(slots, |renderers|)
      ensures forall j | 0 <= j < OUTFIT_AMOUNT :: os[j].Data() == ReconcileOutfit(before[j], renderers)
      ensures forall j | 0 <= j < OUTFIT_AMOUNT :: fresh(os[j].Repr - old(os[j].Repr))
    {
      destroyed := [];
      for outfit := 0 to OUTFIT_AMOUNT
        invariant outfits[..] == os
        invariant forall j | 0 <= j < OUTFIT_AMOUNT ::
                    os[j].Valid() && this !in os[j].Repr && target !in os[j].Repr && outfits !in os[j].Repr
        invariant forall a, b | 0 <= a < OUTFIT_AMOUNT && 0 <= b < OUTFIT_AMOUNT && a != b :: os[a].Repr !! os[b].Repr
        invariant forall j | 0 <= j < OUTFIT_AMOUNT :: fresh(os[j].Repr - old(os[j].Repr))
        invariant |errorOutfits| == OUTFIT_AMOUNT
        invariant forall j | 0 <= j < outfit :: errorOutfits[j] == NoErrors(|renderers|)
        invariant forall j | outfit <= j < OUTFIT_AMOUNT :: os[j].ContainerSlots() == slots[j]
        invariant destroyed == ReleasedContainers(slots[..outfit], |renderers|)
        invariant forall j | 0 <= j < OUTFIT_AMOUNT ::
                    os[j].Data() == if j < outfit then ReconcileOutfit(before[j], renderers) else before[j]
      {
        ghost var d := ReconcileAt(outfits[outfit], outfit, renderers, os, outfits);
        ReleasedContainersStep(slots, outfit, |renderers|);
        destroyed := destroyed + d;
      }
      assert slots[..OUTFIT_AMOUNT] == slots;
      assert errorOutfits == seq(OUTFIT_AMOUNT, _ => NoErrors(|renderers|));
    }

    /** Lines 227-233 on the resized Outfits array, which holds `objs`:
        the kept outfits stay in their slots with their data, the empty slots
        get new empty outfits. Returns the objects the outfits now own: those
        of `kept` and the new outfits. */
    method FillTargetOutfits(ghost data: seq<OutfitData>, ghost slots: seq<Option<seq<CharacterOutfitRenderer?>>>,
                             ghost objs: seq<CharacterOutfit?>, ghost kept: set<object>)
        returns (ghost fp: set<object>)
      requires target.Outfits != null && target.Outfits.Length == OUTFIT_AMOUNT && target.Outfits[..] == objs
      requires |data| == OUTFIT_AMOUNT && |slots| == OUTFIT_AMOUNT
      requires forall i | 0 <= i < OUTFIT_AMOUNT ::
                 if objs[i] != null then
                   && objs[i].Valid() && objs[i].Repr <= kept
                   && this !in objs[i].Repr && target !in objs[i].Repr && target.Outfits !in objs[i].Repr
                   && objs[i].Data() == data[i] && objs[i].ContainerSlots() == slots[i]
                 else data[i] == EmptyOutfit && slots[i] == None
      requires forall a, b | 0 <= a < OUTFIT_AMOUNT && 0 <= b < OUTFIT_AMOUNT && a != b && objs[a] != null && objs[b] != null ::
                 objs[a].Repr !! objs[b].Repr
      requires this !in kept && target !in kept && target.Outfits !in kept
      modifies target.Outfits
      ensures forall i | 0 <= i < OUTFIT_AMOUNT ::
                && target.Outfits[i] != null && target.Outfits[i].Valid()
                && this !in target.Outfits[i].Repr && target !in target.Outfits[i].Repr && target.Outfits !in target.Outfits[i].Repr
                && target.Outfits[i].Data() == data[i] && target.Outfits[i].ContainerSlots() == slots[i]
      ensures forall a, b | 0 <= a < OUTFIT_AMOUNT && 0 <= b < OUTFIT_AMOUNT && a != b ::
                target.Outfits[a].Repr !! target.Outfits[b].Repr
      ensures forall i | 0 <= i < OUTFIT_AMOUNT :: objs[i] != null ==> target.Outfits[i] == objs[i]
      ensures forall i | 0 <= i < OUTFIT_AMOUNT :: objs[i] == null ==> fresh(target.Outfits[i])
      ensures forall i | 0 <= i < OUTFIT_AMOUNT :: target.Outfits[i].Repr <= fp
      ensures fresh(fp - kept)
      ensures this !in fp && target !in fp && target.Outfits !in fp
    {
      forall a, b | 0 <= a < b < OUTFIT_AMOUNT && objs[a] != null
        ensures objs[a] != objs[b]
      {
        assert objs[a] in objs[a].Repr;
      }
      FillOutfits();
      fp := kept + set i | 0 <= i < OUTFIT_AMOUNT && objs[i] == null :: target.Outfits[i] as object;
    }

    /** Lines 214-233: Outfits becomes an OUTFIT_AMOUNT-long array whose
        slots keep the outfits `objs` they held and get new empty outfits
        where they were empty. Returns the objects the outfits now own: those
        of `kept` and the new outfits. */
    method PrepareOutfits(ghost data: seq<OutfitData>, ghost slots: seq<Option<seq<CharacterOutfitRenderer?>>>,
                          ghost objs: seq<CharacterOutfit?>, ghost kept: set<object>)
        returns (ghost fp: set<object>)
      requires objs == target.KeptSlots()
      requires |data| == OUTFIT_AMOUNT && |slots| == OUTFIT_AMOUNT
      requires forall i | 0 <= i < OUTFIT_AMOUNT ::
                 if objs[i] != null then
                   && objs[i].Valid() && objs[i].Repr <= kept
                   && this !in objs[i].Repr && target !in objs[i].Repr && target.Outfits !in objs[i].Repr
                   && objs[i].Data() == data[i] && objs[i].ContainerSlots() == slots[i]
                 else data[i] == EmptyOutfit && slots[i] == None
      requires forall a, b | 0 <= a < OUTFIT_AMOUNT && 0 <= b < OUTFIT_AMOUNT && a != b && objs[a] != null && objs[b] != null ::
                 objs[a].Repr !! objs[b].Repr
      requires this !in kept && target !in kept && target.Outfits !in kept
      modifies this`released, target`Outfits, target.Outfits
      ensures target.Outfits != null && target.Outfits.Length == OUTFIT_AMOUNT
      ensures forall i | 0 <= i < OUTFIT_AMOUNT ::
                && target.Outfits[i] != null && target.Outfits[i].Valid()
                && this !in target.Outfits[i].Repr && target !in target.Outfits[i].Repr && target.Outfits !in target.Outfits[i].Repr
                && target.Outfits[i].Data() == data[i] && target.Outfits[i].ContainerSlots() == slots[i]
      ensures forall a, b | 0 <= a < OUTFIT_AMOUNT && 0 <= b < OUTFIT_AMOUNT && a != b ::
                target.Outfits[a].Repr !! target.Outfits[b].Repr
      ensures released == old(released) + old(target.SurplusOutfits())
      ensures old(target.Outfits) != null && old(target.Outfits.Length) == OUTFIT_AMOUNT ==> target.Outfits == old(target.Outfits)
      ensures old(target.Outfits) == null || old(target.Outfits.Length) != OUTFIT_AMOUNT ==> fresh(target.Outfits)
      ensures forall i | 0 <= i < OUTFIT_AMOUNT :: objs[i] != null ==> target.Outfits[i] == objs[i]
      ensures forall i | 0 <= i < OUTFIT_AMOUNT :: objs[i] == null ==> fresh(target.Outfits[i])
      ensures forall i | 0 <= i < OUTFIT_AMOUNT :: target.Outfits[i].Repr <= fp
      ensures fresh(fp - kept)
      ensures this !in fp && target !in fp && target.Outfits !in fp
    {
      ResizeOutfits();
      forall i | 0 <= i < OUTFIT_AMOUNT
        ensures target.Outfits[i] == objs[i]
      {
        ResizedAt(if old(target.Outfits) == null then [] else old(target.Outfits[..]), OUTFIT_AMOUNT, null, i);
      }
      assert target.Outfits[..] == objs;
      fp := FillTargetOutfits(data, slots, objs, kept);
    }

    /** Lines 235-301 on the prepared target: every outfit is reconciled
        and the target's snapshot is the reconciled data. */
    method ReconcileTarget(renderers: seq<Option<Renderer>>, ghost slots: seq<Option<seq<CharacterOutfitRenderer?>>>,
                           ghost before: CharacterData, ghost data: seq<OutfitData>, ghost fp: set<object>)
      requires target.Outfits != null && target.Outfits.Length == OUTFIT_AMOUNT
      requires |slots| == OUTFIT_AMOUNT && |data| == OUTFIT_AMOUNT && |errorOutfits| == OUTFIT_AMOUNT
      requires this !in fp && target !in fp && target.Outfits !in fp
      requires forall i | 0 <= i < OUTFIT_AMOUNT :: data[i] == OutfitAt(before, i)
      requires forall i | 0 <= i < OUTFIT_AMOUNT ::
                 && target.Outfits[i] != null && target.Outfits[i].Valid() && target.Outfits[i].Repr <= fp
                 && this !in target.Outfits[i].Repr && target !in target.Outfits[i].Repr && target.Outfits !in target.Outfits[i].Repr
                 && target.Outfits[i].Data() == data[i] && target.Outfits[i].ContainerSlots() == slots[i]
      requires forall a, b | 0 <= a < OUTFIT_AMOUNT && 0 <= b < OUTFIT_AMOUNT && a != b ::
                 target.Outfits[a].Repr !! target.Outfits[b].Repr
      modifies this`errorOutfits, this`released, fp
      ensures target.SlotsSeparate() && target.ComponentsSeparate()
      ensures forall i | 0 <= i < OUTFIT_AMOUNT :: this !in target.Outfits[i].Repr
      ensures target.Snapshot() == ReconcileCharacter(before, renderers)
      ensures released == old(released) + ReleasedContainers(slots, |renderers|)
      ensures errorOutfits == seq(OUTFIT_AMOUNT, _ => NoErrors(|renderers|))
      ensures target.Outfits[..] == old(target.Outfits[..])
      ensures forall i | 0 <= i < OUTFIT_AMOUNT :: fresh(target.Outfits[i].Repr - fp)
    {
      ghost var os := target.Outfits[..];
      ghost var destroyed := ReconcileOutfits(target.Outfits, renderers, os, slots, data, fp);
      released := released + destroyed;
      target.SeparateFromSlots();
      target.SnapshotOfFull(ReconcileCharacter(before, renderers));
    }

    /** ValidateOutfits (lines 212-303): the target ends with exactly
        OUTFIT_AMOUNT outfits, each reconciled against the renderer list;
        the surplus outfits and then the surplus containers of each outfit
        are released; every error row is reset to all false. */
    method ValidateOutfits()
      requires target.ComponentsSeparate()
      requires forall i | target.IsKept(i) :: this !in target.Outfits[i].Repr
      requires |errorOutfits| == OUTFIT_AMOUNT
      modifies this, target`Outfits, target.Outfits, target.KeptRepr()
      ensures target.Renderers == old(target.Renderers)
      ensures target.SlotsSeparate() && target.ComponentsSeparate()
      ensures forall i | 0 <= i < OUTFIT_AMOUNT :: this !in target.Outfits[i].Repr
      ensures target.Snapshot() == ReconcileCharacter(old(target.Snapshot()), target.Renderers)
      ensures released == old(released) + old(target.SurplusOutfits())
                          + ReleasedContainers(old(target.KeptContainerSlots()), |target.Renderers|)
      ensures var n := |target.Renderers|; errorOutfits == seq(OUTFIT_AMOUNT, _ => seq(n, _ => false))
      ensures CharacterConsistent(target.Snapshot(), target.Renderers)
      ensures forall i | 0 <= i < OUTFIT_AMOUNT :: old(target.KeptSlots())[i] != null ==> target.Outfits[i] == old(target.KeptSlots())[i]
      ensures forall i | 0 <= i < OUTFIT_AMOUNT :: old(target.KeptSlots())[i] == null ==> fresh(target.Outfits[i])
      ensures old(target.Outfits) != null && old(target.Outfits.Length) == OUTFIT_AMOUNT ==> target.Outfits == old(target.Outfits)
      ensures old(target.Outfits) == null || old(target.Outfits.Length) != OUTFIT_AMOUNT ==> fresh(target.Outfits)
      ensures forall i | 0 <= i < OUTFIT_AMOUNT :: fresh(target.Outfits[i].Repr - old(target.KeptRepr()))
    {
      var renderers := target.Renderers;
      ghost var before := target.Snapshot();
      ghost var slots := target.KeptContainerSlots();
      ghost var data := seq(OUTFIT_AMOUNT, j requires 0 <= j => OutfitAt(before, j));
      ghost var objs := target.KeptSlots();
      ghost var kept := target.KeptRepr();
      target.KeptSlotFacts(data, slots, this);
      ghost var fp := PrepareOutfits(data, slots, objs, kept);
      ghost var prepared := target.Outfits[..];
      ReconcileTarget(renderers, slots, before, data, fp);
      assert target.Outfits[..] == prepared;
      assert forall i | 0 <= i < OUTFIT_AMOUNT :: fresh(target.Outfits[i].Repr - kept);
    }

    /** ValidateOutfits on a character whose outfits already fit its
        renderer list (as the previous ValidateOutfits left them) destroys
        nothing, keeps every outfit object in its slot and changes no outfit
        data: the inspector may call it on every change check. */
    method RevalidateChangesNothing()
      requires target.SlotsSeparate() && target.ComponentsSeparate()
      requires forall i | 0 <= i < OUTFIT_AMOUNT :: this !in target.Outfits[i].Repr
      requires CharacterConsistent(target.Snapshot(), target.Renderers)
      requires |errorOutfits| == OUTFIT_AMOUNT
      modifies this, target`Outfits, target.Outfits, target.KeptRepr()
      ensures released == old(released)
      ensures target.Renderers == old(target.Renderers)
      ensures target.ComponentsSeparate() && target.Snapshot() == old(target.Snapshot())
      ensures forall i | 0 <= i < OUTFIT_AMOUNT :: target.Outfits[i] == old(target.Outfits[i])
    {
      ghost var before := target.Snapshot();
      target.NothingToReleaseWhenConsistent();
      ValidateOutfits();
      CharacterFixedPoint(before, target.Renderers);
    }

    /** Lines 539-555, once the renderer list edit is applied to
        `target.Renderers`: ValidateOutfits runs when the edit changed
        anything, and again when the renderer count differs from
        `initialRendererAmount`. Either way the outfits end reconciled once
        against the new list; when both calls run, the second releases
        nothing and changes no outfit data. */
    method ValidateAfterRendererEdit(changed: bool, initialRendererAmount: nat)
      requires target.ComponentsSeparate()
      requires forall i | target.IsKept(i) :: this !in target.Outfits[i].Repr
      requires |errorOutfits| == OUTFIT_AMOUNT
      modifies this, target`Outfits, target.Outfits, target.KeptRepr()
      ensures target.Renderers == old(target.Renderers)
      ensures target.ComponentsSeparate()
      ensures changed || |target.Renderers| != initialRendererAmount ==>
                && target.Snapshot() == ReconcileCharacter(old(target.Snapshot()), target.Renderers)
                && released == old(released) + old(target.SurplusOutfits())
                                 + ReleasedContainers(old(target.KeptContainerSlots()), |target.Renderers|)
      ensures !changed && |target.Renderers| == initialRendererAmount ==>
                target.Snapshot() == old(target.Snapshot()) && released == old(released)
    {
      if changed {
        ValidateOutfits();
      }
      if |target.Renderers| != initialRendererAmount {
        ghost var before := target.Snapshot();
        if changed {
          target.NothingToReleaseWhenConsistent();
        }
        ValidateOutfits();
        if changed {
          CharacterFixedPoint(before, target.Renderers);
        }
      }
    }

    /** Lines 558-564: every outfit's validity pass runs (the loop does not
        stop at the first invalid outfit), and the character is valid
        exactly when all of its outfits are. */
    method OutfitsValid() returns (allValid: bool)
      requires target.SlotsSeparate() && target.ComponentsSeparate()
      requires forall i | 0 <= i < OUTFIT_AMOUNT :: this !in target.Outfits[i].Repr
      requires CharacterConsistent(target.Snapshot(), target.Renderers)
      requires |errorOutfits| == OUTFIT_AMOUNT
      requires forall i | 0 <= i < OUTFIT_AMOUNT :: |errorOutfits[i]| == |target.Renderers|
      modifies this`errorOutfits
      ensures allValid == CharacterValid(old(target.Snapshot()), target.Renderers)
      ensures |errorOutfits| == OUTFIT_AMOUNT
      ensures forall i | 0 <= i < OUTFIT_AMOUNT ::
                errorOutfits[i] == ErrorRow(old(target.Snapshot()).value[i].value, target.Renderers, old(errorOutfits[i]))
    {
      var outfits := target.Outfits;
      var renderers := target.Renderers;
      ghost var os := target.Snapshot();
      forall i | 0 <= i < OUTFIT_AMOUNT
        ensures os.value[i] == Some(outfits[i].Data())
      {
        target.SnapshotAt(i);
      }
      allValid := true;
      for outfit := 0 to OUTFIT_AMOUNT
        invariant forall i | 0 <= i < OUTFIT_AMOUNT ::
                    && outfits[i].Valid() && this !in outfits[i].Repr
                    && outfits[i].Data() == os.value[i].value && OutfitConsistent(os.value[i].value, renderers)
        invariant |errorOutfits| == OUTFIT_AMOUNT
        invariant forall i | 0 <= i < outfit :: errorOutfits[i] == ErrorRow(os.value[i].value, renderers, old(errorOutfits[i]))
        invariant forall i | outfit <= i < OUTFIT_AMOUNT :: errorOutfits[i] == old(errorOutfits[i])
        invariant allValid == forall i | 0 <= i < outfit :: OutfitValid(os.value[i].value, renderers)
      {
        var valid := DrawOutfitValidity(outfits[outfit], outfit, renderers);
        if !valid {
          allValid := false;
        }
      }
    }

    /** Lines 641-709 without the drawing: the outfit is valid exactly when
        every renderer is non-null and no enabled renderer has an unset
        material slot; the error flag of each non-null renderer is
        recomputed and that of a null renderer is left as it was. */
    method DrawOutfitValidity(o: CharacterOutfit, outfit: nat, renderers: seq<Option<Renderer>>) returns (validOutfit: bool)
      requires o.Valid() && this !in o.Repr
      requires OutfitConsistent(o.Data(), renderers)
      requires outfit < |errorOutfits| && |errorOutfits[outfit]| == |renderers|
      modifies this`errorOutfits
      ensures validOutfit == OutfitValid(o.Data(), renderers)
      ensures errorOutfits == old(errorOutfits)[outfit := ErrorRow(o.Data(), renderers, old(errorOutfits[outfit]))]
    {
      ghost var data := o.Data();
      ghost var prior := errorOutfits[outfit];
      validOutfit := true;
      for renderer := 0 to |renderers|
        invariant |errorOutfits| == |old(errorOutfits)|
        invariant forall i | 0 <= i < |errorOutfits| && i != outfit :: errorOutfits[i] == old(errorOutfits[i])
        invariant |errorOutfits[outfit]| == |renderers|
        invariant forall r | 0 <= r < renderer :: errorOutfits[outfit][r] == ErrorRow(data, renderers, prior)[r]
        invariant forall r | renderer <= r < |renderers| :: errorOutfits[outfit][r] == prior[r]
        invariant validOutfit == forall r | 0 <= r < renderer ::
                    renderers[r].Some? && !(data.enabled.value[r] && HasMissingMaterial(data.containers.value[r].value))
      {
        if renderers[renderer].None? {
          validOutfit := false;
          continue;
        }
        assert data.containers.value[renderer] == o.SlotData(renderer);
        var flag := RendererErrorFlag(o.MaterialContainers[renderer], o.EnabledRenderers[renderer]);
        errorOutfits := errorOutfits[outfit := errorOutfits[outfit][renderer := flag]];
        if flag {
          validOutfit := false;
        }
      }
      assert errorOutfits[outfit] == ErrorRow(data, renderers, prior);
    }
  }

  /** Lines 685-704 for one renderer: its error flag is raised when the
      renderer is shown by the outfit and one of its material slots is
      unset. */
  method RendererErrorFlag(c: CharacterOutfitRenderer, enabled: bool) returns (flag: bool)
    requires c.Materials != null
    ensures flag == (enabled && HasMissingMaterial(c.Data()))
  {
    flag := false;
    for materialId := 0 to c.Materials.Length
      invariant flag == (enabled && None in c.Materials[..materialId])
    {
      if c.Materials[materialId] == None && enabled {
        flag := true;
      }
      assert c.Materials[..materialId + 1] == c.Materials[..materialId] + [c.Materials[materialId]];
    }
    assert c.Materials[..c.Materials.Length] == c.Materials[..];
  }
}
