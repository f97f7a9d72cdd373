/** The character inspector's outfit data, kept in step with the renderer list
    (CharacterDefinitionEditor.ValidateOutfits), and the validity pass its
    outfit drawer makes (DrawMultiMeshOutfitProperty). Components are objects
    holding nullable arrays; DestroyImmediate is recorded in a ghost log.
    Line numbers in this module refer to CharacterDefinitionEditor.cs. */
module OutfitEditor {
  import opened Engine
  import opened OutfitSpec

  /** CharacterOutfitRenderer: one outfit's materials for one renderer. */
  class CharacterOutfitRenderer {
    var Materials: array?<Option<MatRef>>
    var UseShaderForMaterial: array?<bool>

    /** AddComponent<CharacterOutfitRenderer>(): both arrays unset. */
    constructor ()
      ensures Materials == null && UseShaderForMaterial == null
    {
      Materials := null;
      UseShaderForMaterial := null;
    }

    /** The container's contents as a value. */
    ghost function Data(): ContainerData
      reads this, Materials, UseShaderForMaterial
    {
      ContainerData(
        if Materials == null then None else Some(Materials[..]),
        if UseShaderForMaterial == null then None else Some(UseShaderForMaterial[..]))
    }

    /** Both arrays, where set, belong to `repr`. */
    ghost predicate ArraysIn(repr: set<object>)
      reads this
    {
      && (Materials != null ==> Materials in repr)
      && (UseShaderForMaterial != null ==> UseShaderForMaterial in repr)
    }

    /** Sizes Materials and UseShaderForMaterial to a non-null renderer's
        material count. An array is replaced only when it is null or has the
        wrong length; the arrays themselves are never written in place. */
    method Reconcile(renderer: Renderer)
      modifies this
      ensures Data() == ReconcileContainer(old(Data()), Some(renderer))
      ensures old(Materials) != null && old(Materials.Length) == |renderer.sharedMaterials| ==> Materials == old(Materials)
      ensures old(Materials) == null || old(Materials.Length) != |renderer.sharedMaterials| ==> fresh(Materials)
      ensures old(UseShaderForMaterial) != null && old(UseShaderForMaterial.Length) == |renderer.sharedMaterials| ==>
                UseShaderForMaterial == old(UseShaderForMaterial)
      ensures old(UseShaderForMaterial) == null || old(UseShaderForMaterial.Length) != |renderer.sharedMaterials| ==>
                fresh(UseShaderForMaterial)
    {
      var count := |renderer.sharedMaterials|;
      ghost var was := Data();
      if Materials == null {
        // sharedMaterials hands out a copy of the renderer's array
        Materials := new Option<MatRef>[count](i requires 0 <= i < count => renderer.sharedMaterials[i]);
        assert Materials[..] == renderer.sharedMaterials;
      } else if Materials.Length != count {
        Materials := ArrayResize(Materials, count, None);
      }
      ghost var materials := Materials[..];
      if UseShaderForMaterial == null {
        UseShaderForMaterial := new bool[count](_ => false);
        for material := 0 to count
          modifies UseShaderForMaterial
          invariant Materials[..] == materials
          invariant forall j | 0 <= j < material :: UseShaderForMaterial[j]
        {
          UseShaderForMaterial[material] := true;
        }
        assert UseShaderForMaterial[..] == seq(count, _ => true);
      } else if UseShaderForMaterial.Length != count {
        UseShaderForMaterial := ArrayResize(UseShaderForMaterial, count, false);
      }
      assert Data().materials == ReconcileMaterials(was.materials, renderer);
      assert Data().useShader == ReconcileShaderFlags(was.useShader, renderer);
    }
  }

  /** CharacterOutfit: which renderers an outfit shows, and its materials. */
  class CharacterOutfit {
    var EnabledRenderers: array?<bool>
    var MaterialContainers: array?<CharacterOutfitRenderer?>
    /** The outfit, its arrays, its containers and their arrays. */
    ghost var Repr: set<object>

    /** AddComponent<CharacterOutfit>(): both arrays unset. */
    constructor ()
      ensures Valid() && Repr == {this}
      ensures EnabledRenderers == null && MaterialContainers == null
      ensures Data() == EmptyOutfit
    {
      EnabledRenderers := null;
      MaterialContainers := null;
      Repr := {this};
    }

    /** Repr holds everything the outfit's data is read from, and no
        container sits in two slots of MaterialContainers. */
    ghost predicate Valid()
      reads this, Repr
    {
      && this in Repr
      && (EnabledRenderers != null ==> EnabledRenderers in Repr)
      && (MaterialContainers != null ==>
            && MaterialContainers in Repr
            && (forall i | 0 <= i < MaterialContainers.Length && MaterialContainers[i] != null ::
                  MaterialContainers[i] in Repr && MaterialContainers[i].ArraysIn(Repr))
            && ContainersUnshared())
    }

    /** No container appears in two slots of MaterialContainers. */
    ghost predicate ContainersUnshared()
      reads this, MaterialContainers
      requires MaterialContainers != null
    {
      forall i, j | 0 <= i < j < MaterialContainers.Length ::
        MaterialContainers[i] != null ==> MaterialContainers[i] != MaterialContainers[j]
    }

    /** The container slots themselves (not their data); None when the array
        is null. */
    ghost function ContainerSlots(): Option<seq<CharacterOutfitRenderer?>>
      requires Valid()
      reads this, Repr
    {
      if MaterialContainers == null then None else Some(MaterialContainers[..])
    }

    /** The outfit's contents as a value. */
    ghost function Data(): OutfitData
      requires Valid()
      reads this, Repr
    {
      OutfitData(
        if EnabledRenderers == null then None else Some(EnabledRenderers[..]),
        if MaterialContainers == null then None
        else
          var slots := MaterialContainers;
          Some(seq(slots.Length, i requires 0 <= i < slots.Length && slots == MaterialContainers && Valid()
                                   reads this, Repr => SlotData(i))))
    }

    /** The data of container slot i (None for a null slot). */
    ghost function SlotData(i: nat): Option<ContainerData>
      requires Valid() && MaterialContainers != null && i < MaterialContainers.Length
      reads this, Repr
    {
      var c := MaterialContainers[i];
      if c == null then None else Some(c.Data())
    }

    /** Lines 237-245: EnabledRenderers becomes a `count`-long array, keeping
        the flags it had and adding `false` ones. */
    method ResizeEnabled(count: nat)
      requires Valid()
      modifies this
      ensures EnabledRenderers != null
      ensures Valid() && Repr == old(Repr) + {EnabledRenderers as object}
      ensures MaterialContainers == old(MaterialContainers)
      ensures EnabledRenderers[..] == Resized(if old(EnabledRenderers) == null then [] else old(EnabledRenderers[..]), count, false)
      ensures old(EnabledRenderers) != null && old(EnabledRenderers.Length) == count ==> EnabledRenderers == old(EnabledRenderers)
      ensures old(EnabledRenderers) == null || old(EnabledRenderers.Length) != count ==> fresh(EnabledRenderers)
    {
      if EnabledRenderers == null {
        EnabledRenderers := new bool[count](_ => false);
        assert EnabledRenderers[..] == Resized([], count, false);
      } else if EnabledRenderers.Length != count {
        EnabledRenderers := ArrayResize(EnabledRenderers, count, false);
      } else {
        ResizedToOwnLength(EnabledRenderers[..], false);
      }
      Repr := Repr + {EnabledRenderers};
    }

    /** Lines 251-263: MaterialContainers becomes a `count`-long array; when
        it shrinks, the containers above the new length are released from the
        top index down, and they are returned in that order. */
    method ResizeContainers(count: nat) returns (ghost destroyed: seq<CharacterOutfitRenderer?>)
      requires Valid()
      modifies this
      ensures MaterialContainers != null
      ensures Valid() && Repr == old(Repr) + {MaterialContainers as object}
      ensures EnabledRenderers == old(EnabledRenderers)
      ensures MaterialContainers[..] == Resized(if old(MaterialContainers) == null then [] else old(MaterialContainers[..]), count, null)
      ensures destroyed == SurplusOf(old(ContainerSlots()), count)
      ensures old(MaterialContainers) != null && old(MaterialContainers.Length) == count ==> MaterialContainers == old(MaterialContainers)
      ensures old(MaterialContainers) == null || old(MaterialContainers.Length) != count ==> fresh(MaterialContainers)
    {
      destroyed := [];
      if MaterialContainers == null {
        MaterialContainers := new CharacterOutfitRenderer?[count](_ => null);
        assert MaterialContainers[..] == Resized([], count, null);
      } else if MaterialContainers.Length != count {
        ghost var was := MaterialContainers[..];
        MaterialContainers, destroyed := ReleaseSurplusAndResize(MaterialContainers, count, null);
        forall j | 0 <= j < count
          ensures MaterialContainers[j] == if j < |was| then was[j] else null
        {
          ResizedAt(was, count, null, j);
        }
      } else {
        ResizedToOwnLength(MaterialContainers[..], null);
      }
      Repr := Repr + {MaterialContainers};
    }

    /** Lines 264-270: every null container slot gets a new container; the
        others keep theirs. */
    method FillContainers()
      requires Valid() && MaterialContainers != null
      modifies this, MaterialContainers
      ensures Valid() && fresh(Repr - old(Repr))
      ensures EnabledRenderers == old(EnabledRenderers) && MaterialContainers == old(MaterialContainers)
      ensures forall j | 0 <= j < MaterialContainers.Length ::
                if old(MaterialContainers[j]) != null then MaterialContainers[j] == old(MaterialContainers[j])
                else fresh(MaterialContainers[j]) && MaterialContainers[j].Data() == EmptyContainer
    {
      for i := 0 to MaterialContainers.Length
        invariant Valid() && fresh(Repr - old(Repr))
        invariant EnabledRenderers == old(EnabledRenderers) && MaterialContainers == old(MaterialContainers)
        invariant forall j | 0 <= j < i ::
                    if old(MaterialContainers[j]) != null then MaterialContainers[j] == old(MaterialContainers[j])
                    else fresh(MaterialContainers[j]) && MaterialContainers[j].Data() == EmptyContainer
        invariant forall j | i <= j < MaterialContainers.Length :: MaterialContainers[j] == old(MaterialContainers[j])
      {
        if MaterialContainers[i] == null {
          var c := new CharacterOutfitRenderer();
          MaterialContainers[i] := c;
          Repr := Repr + {c};
        }
      }
    }

    /** Lines 274-299 for one renderer index: the container in slot k is
        sized to `renderer`; no other slot changes. */
    method ReconcileSlot(k: nat, renderer: Renderer)
      requires Valid() && MaterialContainers != null && k < MaterialContainers.Length && MaterialContainers[k] != null
      modifies this, MaterialContainers[k]
      ensures Valid() && fresh(Repr - old(Repr))
      ensures EnabledRenderers == old(EnabledRenderers) && MaterialContainers == old(MaterialContainers)
      ensures MaterialContainers[k].Data() == ReconcileContainer(old(MaterialContainers[k].Data()), Some(renderer))
      ensures forall j | 0 <= j < MaterialContainers.Length && j != k && MaterialContainers[j] != null ::
                MaterialContainers[j].Data() == old(MaterialContainers[j].Data())
    {
      var c := MaterialContainers[k];
      c.Reconcile(renderer);
      Repr := Repr + {c.Materials as object, c.UseShaderForMaterial as object};
      assert forall j | 0 <= j < MaterialContainers.Length && j != k && MaterialContainers[j] != null ::
               MaterialContainers[j] != c;
    }

    /** Lines 264-299: null container slots are filled, then the container
        of every non-null renderer is sized to that renderer; the containers
        of null renderers are skipped. `start` is the data each slot holds
        (EmptyContainer for a null slot). */
    method ReconcileContainers(renderers: seq<Option<Renderer>>, ghost start: seq<ContainerData>)
      requires Valid()
      requires MaterialContainers != null && MaterialContainers.Length == |renderers| == |start|
      requires forall j | 0 <= j < |renderers| ::
                 start[j] == if MaterialContainers[j] == null then EmptyContainer else MaterialContainers[j].Data()
      modifies Repr
      ensures Valid() && fresh(Repr - old(Repr))
      ensures EnabledRenderers == old(EnabledRenderers) && MaterialContainers == old(MaterialContainers)
      ensures EnabledRenderers != null ==> EnabledRenderers[..] == old(EnabledRenderers[..])
      ensures forall j | 0 <= j < |renderers| ::
                && MaterialContainers[j] != null
                && MaterialContainers[j].Data() == ReconcileContainer(start[j], renderers[j])
      ensures forall j | 0 <= j < |renderers| ::
                if old(MaterialContainers[j]) != null then MaterialContainers[j] == old(MaterialContainers[j])
                else fresh(MaterialContainers[j])
    {
      FillContainers();
      for renderer := 0 to |renderers|
        invariant EnabledRenderers == old(EnabledRenderers) && MaterialContainers == old(MaterialContainers)
        invariant Valid() && fresh(Repr - old(Repr))
        invariant EnabledRenderers != null ==> EnabledRenderers[..] == old(EnabledRenderers[..])
        invariant forall j | 0 <= j < |renderers| ::
                    if old(MaterialContainers[j]) != null then MaterialContainers[j] == old(MaterialContainers[j])
                    else fresh(MaterialContainers[j])
        invariant forall j | 0 <= j < renderer ::
                    MaterialContainers[j].Data() == ReconcileContainer(start[j], renderers[j])
        invariant forall j | renderer <= j < |renderers| :: MaterialContainers[j].Data() == start[j]
      {
        if renderers[renderer].None? {
          continue;
        }
        ReconcileSlot(renderer, renderers[renderer].value);
      }
    }

    /** Lines 237-263: both arrays are resized to `count`, keeping their
        leading entries; returns the containers released above the new
        length, top index first. */
    method ResizeArrays(count: nat) returns (ghost destroyed: seq<CharacterOutfitRenderer?>)
      requires Valid()
      modifies this
      ensures EnabledRenderers != null && MaterialContainers != null && MaterialContainers.Length == count
      ensures Valid() && Repr == old(Repr) + {EnabledRenderers as object, MaterialContainers as object}
      ensures EnabledRenderers[..] == Resized(old(Data()).enabled.GetOr([]), count, false)
      ensures destroyed == SurplusOf(old(ContainerSlots()), count)
      ensures old(EnabledRenderers) != null && old(EnabledRenderers.Length) == count ==> EnabledRenderers == old(EnabledRenderers)
      ensures old(EnabledRenderers) == null || old(EnabledRenderers.Length) != count ==> fresh(EnabledRenderers)
      ensures old(MaterialContainers) != null && old(MaterialContainers.Length) == count ==> MaterialContainers == old(MaterialContainers)
      ensures old(MaterialContainers) == null || old(MaterialContainers.Length) != count ==> fresh(MaterialContainers)
      ensures forall j | 0 <= j < count ::
                MaterialContainers[j] == if old(MaterialContainers) != null && j < old(MaterialContainers.Length) then old(MaterialContainers[j]) else null
    {
      ghost var oldSlots := if MaterialContainers == null then [] else MaterialContainers[..];
      ResizeEnabled(count);
      destroyed := ResizeContainers(count);
      forall j | 0 <= j < count
        ensures MaterialContainers[j] == if j < |oldSlots| then oldSlots[j] else null
      {
        ResizedAt(oldSlots, count, null, j);
      }
    }

    /** Lines 235-300 for one outfit, against the renderer list. Returns the
        containers it releases, in the order it releases them. */
    method Reconcile(renderers: seq<Option<Renderer>>) returns (ghost destroyed: seq<CharacterOutfitRenderer?>)
      requires Valid()
      modifies Repr
      ensures Valid() && fresh(Repr - old(Repr))
      ensures Data() == ReconcileOutfit(old(Data()), renderers)
      ensures destroyed == SurplusOf(old(ContainerSlots()), |renderers|)
      ensures EnabledRenderers != null && EnabledRenderers.Length == |renderers|
      ensures MaterialContainers != null && MaterialContainers.Length == |renderers|
      ensures old(EnabledRenderers) != null && old(EnabledRenderers.Length) == |renderers| ==>
                EnabledRenderers == old(EnabledRenderers)
      ensures old(MaterialContainers) != null && old(MaterialContainers.Length) == |renderers| ==>
                MaterialContainers == old(MaterialContainers)
      ensures forall i | 0 <= i < |renderers| ::
                if old(MaterialContainers) != null && i < old(MaterialContainers.Length) && old(MaterialContainers[i]) != null
                then MaterialContainers[i] == old(MaterialContainers[i])
                else fresh(MaterialContainers[i])
    {
      var count := |renderers|;
      ghost var oldData := Data();
      ghost var oldSlots := if MaterialContainers == null then [] else MaterialContainers[..];
      assert forall j | 0 <= j < |oldSlots| && oldSlots[j] != null :: oldData.containers.value[j] == Some(oldSlots[j].Data());
      destroyed := ResizeArrays(count);
      ghost var start := seq(count, j requires 0 <= j < count => ContainerAt(oldData.containers, j));
      assert forall j | 0 <= j < count ::
               start[j] == if MaterialContainers[j] == null then EmptyContainer else MaterialContainers[j].Data();
      ReconcileContainers(renderers, start);
      assert Data().containers.value == ReconcileOutfit(oldData, renderers).containers.value by {
        forall j | 0 <= j < |renderers|
          ensures Data().containers.value[j] == ReconcileOutfit(oldData, renderers).containers.value[j]
        {
          assert Data().containers.value[j] == SlotData(j);
        }
      }
    }
  }
}
