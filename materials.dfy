/** The material swap of the model viewer: renderers hold arrays of material slots; a material
    is put in place of the first slot with a given name, and the one it displaced is remembered
    so that it can be put back on the next swap. */
module Materials {

  datatype Option<T> = None | Some(value: T)

  /** A material, identified by id and carrying the name the swap matches on. */
  datatype Material = Material(id: nat, name: string)

  /** The index of the first slot named name, if any. */
  function FirstSlotNamed(slots: seq<Material>, name: string): (k: Option<nat>)
    ensures k.Some? ==> k.value < |slots| && slots[k.value].name == name
    ensures k.Some? ==> forall j :: 0 <= j < k.value ==> slots[j].name != name
    ensures k.None? ==> forall j :: 0 <= j < |slots| ==> slots[j].name != name
  {
    if |slots| == 0 then None
    else if slots[0].name == name then Some(0)
    else match FirstSlotNamed(slots[1..], name)
      case None => None
      case Some(j) => Some(j + 1)
  }

  /** The slots after putting material in the first slot named name, and the material that was
      there (none, and the slots unchanged, when no slot has that name). */
  function ReplaceFirstNamed(slots: seq<Material>, name: string, material: Material): (seq<Material>, Option<Material>)
  {
    match FirstSlotNamed(slots, name)
    case None => (slots, None)
    case Some(k) => (slots[k := material], Some(slots[k]))
  }

  /** The swap applied to every renderer. */
  function ReplaceInAll(renderers: seq<seq<Material>>, name: string, material: Material): (r: seq<seq<Material>>)
    ensures |r| == |renderers|
  {
    seq(|renderers|, i requires 0 <= i < |renderers| => ReplaceFirstNamed(renderers[i], name, material).0)
  }

  /** The remembered material after the swap visits the renderers in order: the one displaced in
      the last renderer that had a match, or prior when none had. */
  function LastDisplaced(renderers: seq<seq<Material>>, name: string, material: Material, prior: Option<Material>): Option<Material>
  {
    if |renderers| == 0 then prior
    else
      var displaced := ReplaceFirstNamed(renderers[|renderers| - 1], name, material).1;
      if displaced.Some? then displaced
      else LastDisplaced(renderers[..|renderers| - 1], name, material, prior)
  }

  /** The slot names of every renderer, renderer by renderer and slot by slot. */
  function SlotNames(renderers: seq<seq<Material>>): seq<string>
  {
    if |renderers| == 0 then []
    else SlotNames(renderers[..|renderers| - 1]) + NamesOf(renderers[|renderers| - 1])
  }

  function NamesOf(slots: seq<Material>): seq<string>
  {
    seq(|slots|, j requires 0 <= j < |slots| => slots[j].name)
  }

  function TotalSlots(renderers: seq<seq<Material>>): nat
  {
    if |renderers| == 0 then 0 else TotalSlots(renderers[..|renderers| - 1]) + |renderers[|renderers| - 1]|
  }

  class ModelController {
    var modelMaterial: Material
    var originalMaterial: Option<Material>
    /** The slot arrays of the mesh renderers and of the skinned mesh renderers under the spawn
        point, in the order the scene lists them. */
    var meshRenderers: seq<seq<Material>>
    var skinnedMeshRenderers: seq<seq<Material>>
    var childCount: nat

    constructor (modelMaterial: Material)
      ensures this.modelMaterial == modelMaterial && originalMaterial == None
      ensures meshRenderers == [] && skinnedMeshRenderers == [] && childCount == 0
    {
      this.modelMaterial := modelMaterial;
      originalMaterial := None;
      meshRenderers, skinnedMeshRenderers := [], [];
      childCount := 0;
    }

    /** Puts material in the first slot named materialName, through a copy of the slot array
        that is stored back only on a match, and returns the material that was there. With no
        such slot the slots are unchanged and nothing is returned. */
    static method AssignMaterialToRenderer(slots: seq<Material>, materialName: string, material: Material)
      returns (updated: seq<Material>, displaced: Option<Material>)
      ensures (updated, displaced) == ReplaceFirstNamed(slots, materialName, material)
    {
      var materials := new Material[|slots|](j requires 0 <= j < |slots| => slots[j]);
      for i := 0 to materials.Length
        invariant materials[..] == slots
        invariant forall j :: 0 <= j < i ==> slots[j].name != materialName
      {
        if materials[i].name == materialName {
          var original := materials[i];
          materials[i] := material;
          updated := materials[..];
          return updated, Some(original);
        }
      }
      return slots, None;
    }

    /** The swap applied to each renderer in turn; last is the material displaced in the last
        renderer that had a match, or prior if none had. */
    static method AssignToEach(renderers: seq<seq<Material>>, materialName: string, material: Material, prior: Option<Material>)
      returns (updated: seq<seq<Material>>, last: Option<Material>)
      ensures updated == ReplaceInAll(renderers, materialName, material)
      ensures last == LastDisplaced(renderers, materialName, material, prior)
    {
      updated, last := renderers, prior;
      for i := 0 to |renderers|
        invariant |updated| == |renderers|
        invariant forall j :: 0 <= j < i ==> updated[j] == ReplaceFirstNamed(renderers[j], materialName, material).0
        invariant forall j :: i <= j < |renderers| ==> updated[j] == renderers[j]
        invariant last == LastDisplaced(renderers[..i], materialName, material, prior)
      {
        var slots, returned := AssignMaterialToRenderer(updated[i], materialName, material);
        updated := updated[i := slots];
        if returned.Some? {
          last := returned;
        }
        assert renderers[..i + 1][..i] == renderers[..i];
      }
      assert renderers[..|renderers|] == renderers;
    }

    /** Puts the remembered original back in place of the model material, if one is
        remembered, then puts the model material in place of the first slot named materialName
        in every mesh renderer and then every skinned renderer, remembering the last material
        displaced. */
    method AssignMaterialByName(materialName: string)
      modifies this
      ensures modelMaterial == old(modelMaterial) && childCount == old(childCount)
      ensures var mesh := if old(originalMaterial).Some?
                          then ReplaceInAll(old(meshRenderers), modelMaterial.name, old(originalMaterial).value)
                          else old(meshRenderers);
              var skinned := if old(originalMaterial).Some?
                             then ReplaceInAll(old(skinnedMeshRenderers), modelMaterial.name, old(originalMaterial).value)
                             else old(skinnedMeshRenderers);
              && meshRenderers == ReplaceInAll(mesh, materialName, modelMaterial)
              && skinnedMeshRenderers == ReplaceInAll(skinned, materialName, modelMaterial)
              && originalMaterial == LastDisplaced(skinned, materialName, modelMaterial,
                                                   LastDisplaced(mesh, materialName, modelMaterial, old(originalMaterial)))
    {
      var mesh, skinned := meshRenderers, skinnedMeshRenderers;
      if originalMaterial.Some? {
        // The materials these calls displace are discarded.
        var discarded;
        mesh, discarded := AssignToEach(mesh, modelMaterial.name, originalMaterial.value, None);
        skinned, discarded := AssignToEach(skinned, modelMaterial.name, originalMaterial.value, None);
      }
      mesh, originalMaterial := AssignToEach(mesh, materialName, modelMaterial, originalMaterial);
      skinned, originalMaterial := AssignToEach(skinned, materialName, modelMaterial, originalMaterial);
      meshRenderers, skinnedMeshRenderers := mesh, skinned;
    }

    /** The names of all slots, mesh renderers first and skinned renderers after, in order;
        nothing when no model is loaded or it has no slots. */
    method GetMaterialNames() returns (names: Option<seq<string>>)
      ensures childCount == 0 ==> names == None
      ensures childCount > 0 ==>
        names == (var all := SlotNames(meshRenderers) + SlotNames(skinnedMeshRenderers);
                  if |all| > 0 then Some(all) else None)
    {
      if childCount > 0 {
        var materialNames: seq<string> := [];
        materialNames := AppendSlotNames(materialNames, meshRenderers);
        materialNames := AppendSlotNames(materialNames, skinnedMeshRenderers);
        assert materialNames == SlotNames(meshRenderers) + SlotNames(skinnedMeshRenderers);
        if |materialNames| > 0 {
          return Some(materialNames);
        }
        return None;
      }
      return None;
    }

    /** Appends the name of every slot of every renderer to names. */
    static method AppendSlotNames(names: seq<string>, renderers: seq<seq<Material>>) returns (result: seq<string>)
      ensures result == names + SlotNames(renderers)
    {
      result := names;
      for i := 0 to |renderers|
        invariant result == names + SlotNames(renderers[..i])
      {
        var materials := renderers[i];
        for j := 0 to |materials|
          invariant result == names + SlotNames(renderers[..i]) + NamesOf(materials[..j])
        {
          result := result + [materials[j].name];
          assert NamesOf(materials[..j + 1]) == NamesOf(materials[..j]) + [materials[j].name];
        }
        assert materials[..|materials|] == materials;
        assert renderers[..i + 1][..i] == renderers[..i];
      }
      assert renderers[..|renderers|] == renderers;
    }
  }

  // ---------------------------------------------------------------------------------------------
  // Properties of the swap

  /** The swap changes at most the first slot named name, keeps the length, and returns what
      that slot held; with no such slot nothing changes. */
  lemma ReplaceChangesOnlyFirstMatch(slots: seq<Material>, name: string, material: Material)
    ensures var (updated, displaced) := ReplaceFirstNamed(slots, name, material);
            && |updated| == |slots|
            && (displaced.None? <==> forall j :: 0 <= j < |slots| ==> slots[j].name != name)
            && (displaced.None? ==> updated == slots)
            && (displaced.Some? ==> exists k :: 0 <= k < |slots| && slots[k].name == name &&
                                        displaced == Some(slots[k]) && updated[k] == material &&
                                        (forall j :: 0 <= j < k ==> slots[j].name != name) &&
                                        (forall j :: 0 <= j < |slots| && j != k ==> updated[j] == slots[j]))
  {
    match FirstSlotNamed(slots, name)
    case None =>
    case Some(k) =>
      assert slots[k].name == name;
  }

  /** Putting the displaced material back in place of the new one undoes the swap, provided no
      slot already had the new material's name. */
  lemma RestoreUndoesReplace(slots: seq<Material>, name: string, material: Material)
    requires forall j :: 0 <= j < |slots| ==> slots[j].name != material.name
    ensures var (updated, displaced) := ReplaceFirstNamed(slots, name, material);
            displaced.Some? ==> ReplaceFirstNamed(updated, material.name, displaced.value).0 == slots
  {
    match FirstSlotNamed(slots, name)
    case None =>
    case Some(k) =>
      var updated := slots[k := material];
      assert updated[k].name == material.name;
      assert FirstSlotNamed(updated, material.name) == Some(k);
      assert updated[k := slots[k]] == slots;
  }

  /** Over all renderers: restoring a single remembered material undoes the swap when every
      renderer that had a match displaced that very material, and no slot had the new
      material's name. */
  lemma RestoreAllUndoesReplaceAll(renderers: seq<seq<Material>>, name: string, material: Material, original: Material)
    requires forall i, j :: 0 <= i < |renderers| && 0 <= j < |renderers[i]| ==> renderers[i][j].name != material.name
    requires forall i :: 0 <= i < |renderers| && ReplaceFirstNamed(renderers[i], name, material).1.Some? ==>
      ReplaceFirstNamed(renderers[i], name, material).1 == Some(original)
    ensures ReplaceInAll(ReplaceInAll(renderers, name, material), material.name, original) == renderers
  {
    var once := ReplaceInAll(renderers, name, material);
    var twice := ReplaceInAll(once, material.name, original);
    forall i | 0 <= i < |renderers| ensures twice[i] == renderers[i] {
      RestoreUndoesReplace(renderers[i], name, material);
      if ReplaceFirstNamed(renderers[i], name, material).1.None? {
        assert once[i] == renderers[i];
        ReplaceChangesOnlyFirstMatch(once[i], material.name, original);
      }
    }
  }

  /** The remembered material is the one displaced in the last renderer with a match, and
      stays as it was when no renderer has a match. */
  lemma {:induction false} LastDisplacedIsLastMatch(renderers: seq<seq<Material>>, name: string, material: Material, prior: Option<Material>)
    ensures (forall i :: 0 <= i < |renderers| ==> FirstSlotNamed(renderers[i], name).None?) ==>
      LastDisplaced(renderers, name, material, prior) == prior
    ensures forall k :: 0 <= k < |renderers| && FirstSlotNamed(renderers[k], name).Some? &&
                        (forall j :: k < j < |renderers| ==> FirstSlotNamed(renderers[j], name).None?) ==>
      LastDisplaced(renderers, name, material, prior) == Some(renderers[k][FirstSlotNamed(renderers[k], name).value])
  {
    if |renderers| > 0 {
      var n := |renderers| - 1;
      var front := renderers[..n];
      var result := LastDisplaced(renderers, name, material, prior);
      var last := FirstSlotNamed(renderers[n], name);
      if last.Some? {
        assert result == Some(renderers[n][last.value]);
        forall k | 0 <= k < n && FirstSlotNamed(renderers[k], name).Some?
          ensures exists j :: k < j < |renderers| && FirstSlotNamed(renderers[j], name).Some?
        {
          assert k < n && FirstSlotNamed(renderers[n], name).Some?;
        }
      } else {
        assert result == LastDisplaced(front, name, material, prior);
        LastDisplacedIsLastMatch(front, name, material, prior);
        assert forall i :: 0 <= i < n ==> front[i] == renderers[i];
      }
    }
  }

  /** The list of names has one entry per slot, and a name occurs in it exactly when some slot
      carries it. */
  lemma {:induction false} SlotNamesComplete(renderers: seq<seq<Material>>, name: string)
    ensures |SlotNames(renderers)| == TotalSlots(renderers)
    ensures name in SlotNames(renderers) <==>
      exists i, j :: 0 <= i < |renderers| && 0 <= j < |renderers[i]| && renderers[i][j].name == name
  {
    if |renderers| > 0 {
      var n := |renderers| - 1;
      var front := renderers[..n];
      SlotNamesComplete(front, name);
      assert forall i :: 0 <= i < n ==> front[i] == renderers[i];
      var last := NamesOf(renderers[n]);
      assert name in last <==> exists j :: 0 <= j < |renderers[n]| && renderers[n][j].name == name by {
        if name in last {
          var j :| 0 <= j < |last| && last[j] == name;
          assert renderers[n][j].name == name;
        }
        if exists j :: 0 <= j < |renderers[n]| && renderers[n][j].name == name {
          var j :| 0 <= j < |renderers[n]| && renderers[n][j].name == name;
          assert last[j] == name;
        }
      }
      if name in SlotNames(renderers) {
        if name in SlotNames(front) {
          var i, j :| 0 <= i < n && 0 <= j < |front[i]| && front[i][j].name == name;
          assert renderers[i][j].name == name;
        }
      } else {
        forall i, j | 0 <= i < |renderers| && 0 <= j < |renderers[i]| ensures renderers[i][j].name != name {
          if i < n {
            assert front[i][j].name == renderers[i][j].name;
          } else {
            assert last[j] == renderers[i][j].name;
          }
        }
      }
    }
  }
}
