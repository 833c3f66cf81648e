/**
 * The coordinate selection and the size guards of helper_scripts/rmsd.py. A parsed structure is
 * the sequence of its chains, in the order `get_chains()` yields them; a chain holds its residues,
 * a residue its number (`id[1]`) and its atoms. Coordinates are of an unspecified type C: the
 * superposition and the arithmetic on them are not part of this model.
 */
module Rmsd {
  import opened Wrappers

  datatype Atom<C> = Atom(name: string, coord: C)
  datatype Residue<C> = Residue(number: int, atoms: seq<Atom<C>>)
  datatype Chain<C> = Chain(id: string, residues: seq<Residue<C>>)

  /** The default `atom_types` of `align` and `get_residue_coords`: the backbone atoms. */
  const BackboneAtoms: seq<string> := ["CA", "N", "C", "O"]

  /** Which of `align`'s two coordinate lists is unbound when it is first used. */
  datatype Side = Native | Model

  datatype RmsdError =
    | NoCoordinates(chainId: string)   // the ValueError of get_residue_coords
    | Unbound(side: Side)              // UnboundLocalError: no chain had the requested id
    | AtomCountMismatch                // the ValueError of align and rmsd_no_align

  /** Coordinates of the native structure and of the model, as handed to the superimposer. */
  datatype CoordPair<C> = CoordPair(native: seq<C>, model: seq<C>)

  // ---------------------------------------------------------------------------------------
  // The filters

  /** The chain a loop over chains that breaks at the first id match stops at, if any. */
  function FirstChain<C>(structure: seq<Chain<C>>, id: string): (r: Option<nat>)
    ensures r.Some? ==> r.value < |structure| && structure[r.value].id == id
    ensures r.Some? ==> forall k :: 0 <= k < r.value ==> structure[k].id != id
    ensures r.None? <==> forall k :: 0 <= k < |structure| ==> structure[k].id != id
  {
    if structure == [] then None
    else if structure[0].id == id then Some(0)
    else
      match FirstChain(structure[1..], id)
      case None => None
      case Some(k) => Some(k + 1)
  }

  /** `[a.coord for a in atoms if a.name in atom_types]`. */
  function AtomCoords<C>(atoms: seq<Atom<C>>, types: seq<string>): seq<C>
  {
    if atoms == [] then []
    else (if atoms[0].name in types then [atoms[0].coord] else []) + AtomCoords(atoms[1..], types)
  }

  /** `chain.get_atoms()`: the atoms of every residue, in residue order. */
  function ChainAtoms<C>(residues: seq<Residue<C>>): seq<Atom<C>>
  {
    if residues == [] then []
    else ChainAtoms(residues[..|residues| - 1]) + residues[|residues| - 1].atoms
  }

  /** The accumulator of `get_residue_coords` after it has gone through `residues`. */
  function SelectedCoords<C>(residues: seq<Residue<C>>, numbers: seq<int>, types: seq<string>): seq<C>
  {
    if residues == [] then []
    else
      var last := residues[|residues| - 1];
      SelectedCoords(residues[..|residues| - 1], numbers, types)
        + if last.number in numbers then AtomCoords(last.atoms, types) else []
  }

  /** What `get_residue_coords` returns, or the ValueError it raises: never an empty list. */
  function ResidueCoords<C>(structure: seq<Chain<C>>, chainId: string, numbers: seq<int>, types: seq<string>)
    : (r: Result<seq<C>, RmsdError>)
    ensures r.Ok? ==> r.value != []
    ensures r.Err? ==> r.error == NoCoordinates(chainId)
    ensures FirstChain(structure, chainId).None? ==> r.Err?
  {
    match FirstChain(structure, chainId)
    case None => Err(NoCoordinates(chainId))
    case Some(k) =>
      var coords := SelectedCoords(structure[k].residues, numbers, types);
      if coords == [] then Err(NoCoordinates(chainId)) else Ok(coords)
  }

  /** `get_residue_coords` on an already parsed structure. */
  method GetResidueCoords<C>(structure: seq<Chain<C>>, chainId: string, numbers: seq<int>, types: seq<string>)
    returns (r: Result<seq<C>, RmsdError>)
    ensures r == ResidueCoords(structure, chainId, numbers, types)
    ensures r.Ok? ==> r.value != []
  {
    var coords: seq<C> := [];
    var i := 0;
    while i < |structure|
      invariant 0 <= i <= |structure|
      invariant forall k :: 0 <= k < i ==> structure[k].id != chainId
      invariant coords == []
    {
      var chain := structure[i];
      if chain.id == chainId {
        var j := 0;
        while j < |chain.residues|
          invariant 0 <= j <= |chain.residues|
          invariant coords == SelectedCoords(chain.residues[..j], numbers, types)
        {
          var resi := chain.residues[j];
          assert chain.residues[..j + 1][..j] == chain.residues[..j];
          if resi.number in numbers {
            coords := coords + AtomCoords(resi.atoms, types);
          }
          j := j + 1;
        }
        assert chain.residues[..j] == chain.residues;
        FirstChainAt(structure, chainId, i);
        break;
      }
      i := i + 1;
    }
    if coords == [] {
      return Err(NoCoordinates(chainId));
    }
    return Ok(coords);
  }

  /** A chain with the id before which no chain has it is the one FirstChain finds. */
  lemma {:induction false} FirstChainAt<C>(structure: seq<Chain<C>>, id: string, i: nat)
    requires i < |structure| && structure[i].id == id
    requires forall k :: 0 <= k < i ==> structure[k].id != id
    ensures FirstChain(structure, id) == Some(i)
  {
    if i > 0 {
      var rest := structure[1..];
      assert forall k :: 0 <= k < i - 1 ==> rest[k] == structure[k + 1];
      FirstChainAt(rest, id, i - 1);
    }
  }

  // ---------------------------------------------------------------------------------------
  // What the selection is

  /** The atom filter runs over two pieces of an atom list one after the other. */
  lemma {:induction false} AtomCoordsAppend<C>(a: seq<Atom<C>>, b: seq<Atom<C>>, types: seq<string>)
    ensures AtomCoords(a + b, types) == AtomCoords(a, types) + AtomCoords(b, types)
  {
    if a == [] {
      assert a + b == b;
    } else {
      var h := if a[0].name in types then [a[0].coord] else [];
      calc {
        AtomCoords(a + b, types);
        { assert (a + b)[0] == a[0]; }
        h + AtomCoords((a + b)[1..], types);
        { assert (a + b)[1..] == a[1..] + b; }
        h + AtomCoords(a[1..] + b, types);
        { AtomCoordsAppend(a[1..], b, types); }
        h + (AtomCoords(a[1..], types) + AtomCoords(b, types));
        (h + AtomCoords(a[1..], types)) + AtomCoords(b, types);
      }
    }
  }

  /** The selection over two runs of residues is the selection over the first, then the second. */
  lemma {:induction false} SelectedCoordsAppend<C>(p: seq<Residue<C>>, q: seq<Residue<C>>, numbers: seq<int>, types: seq<string>)
    ensures SelectedCoords(p + q, numbers, types) == SelectedCoords(p, numbers, types) + SelectedCoords(q, numbers, types)
  {
    if q == [] {
      assert p + q == p;
    } else {
      var init, last := q[..|q| - 1], q[|q| - 1];
      assert (p + q)[..|p + q| - 1] == p + init;
      assert (p + q)[|p + q| - 1] == last;
      SelectedCoordsAppend(p, init, numbers, types);
    }
  }

  /** One residue contributes its filtered atoms when its number is listed, and nothing otherwise. */
  lemma SelectedCoordsOne<C>(r: Residue<C>, numbers: seq<int>, types: seq<string>)
    ensures SelectedCoords([r], numbers, types) == if r.number in numbers then AtomCoords(r.atoms, types) else []
  {
    assert [r][..0] == [];
  }

  /**
   * The residues are selected by membership in `numbers` alone: two residue lists with the same
   * members, whatever their order and repetitions, select the same coordinates.
   */
  lemma {:induction false} SelectedCoordsByMembership<C>(residues: seq<Residue<C>>, ns: seq<int>, ms: seq<int>, types: seq<string>)
    requires forall n :: n in ns <==> n in ms
    ensures SelectedCoords(residues, ns, types) == SelectedCoords(residues, ms, types)
  {
    if residues != [] {
      SelectedCoordsByMembership(residues[..|residues| - 1], ns, ms, types);
      assert residues[|residues| - 1].number in ns <==> residues[|residues| - 1].number in ms;
    }
  }

  /** So the order and duplicates of `get_residue_coords`' residue list do not change its result. */
  lemma ResidueCoordsByMembership<C>(structure: seq<Chain<C>>, chainId: string, ns: seq<int>, ms: seq<int>, types: seq<string>)
    requires forall n :: n in ns <==> n in ms
    ensures ResidueCoords(structure, chainId, ns, types) == ResidueCoords(structure, chainId, ms, types)
  {
    match FirstChain(structure, chainId)
    case None =>
    case Some(k) => SelectedCoordsByMembership(structure[k].residues, ns, ms, types);
  }

  /** A structure that agrees with another up to its first chain with the id finds that chain too. */
  lemma {:induction false} FirstChainPrefix<C>(s: seq<Chain<C>>, t: seq<Chain<C>>, id: string, k: nat)
    requires FirstChain(s, id) == Some(k)
    requires k < |t| && t[..k + 1] == s[..k + 1]
    ensures FirstChain(t, id) == Some(k)
  {
    assert forall i :: 0 <= i <= k ==> t[i] == t[..k + 1][i] == s[..k + 1][i] == s[i];
    FirstChainAt(t, id, k);
  }

  /** Chains after the first one with the requested id are never looked at. */
  lemma OnlyFirstChain<C>(s: seq<Chain<C>>, t: seq<Chain<C>>, chainId: string, numbers: seq<int>, types: seq<string>, k: nat)
    requires FirstChain(s, chainId) == Some(k)
    requires k < |t| && t[..k + 1] == s[..k + 1]
    ensures ResidueCoords(t, chainId, numbers, types) == ResidueCoords(s, chainId, numbers, types)
  {
    FirstChainPrefix(s, t, chainId, k);
    assert t[k] == t[..k + 1][k] == s[..k + 1][k] == s[k];
  }

  /** The atom filter keeps something exactly when some atom has one of the names. */
  lemma {:induction false} AtomCoordsEmpty<C>(atoms: seq<Atom<C>>, types: seq<string>)
    ensures AtomCoords(atoms, types) == [] <==> forall j :: 0 <= j < |atoms| ==> atoms[j].name !in types
  {
    if atoms != [] {
      AtomCoordsEmpty(atoms[1..], types);
      assert forall j :: 1 <= j < |atoms| ==> atoms[1..][j - 1] == atoms[j];
    }
  }

  /** An atom of residue i that the filters keep. */
  predicate Picked<C>(residues: seq<Residue<C>>, numbers: seq<int>, types: seq<string>, i: int, j: int)
  {
    0 <= i < |residues| && residues[i].number in numbers && 0 <= j < |residues[i].atoms| && residues[i].atoms[j].name in types
  }

  /** The selection is empty exactly when no atom of a listed residue has one of the names. */
  lemma {:induction false} SelectedCoordsEmpty<C>(residues: seq<Residue<C>>, numbers: seq<int>, types: seq<string>)
    ensures SelectedCoords(residues, numbers, types) == [] <==> forall i, j :: !Picked(residues, numbers, types, i, j)
  {
    if residues != [] {
      var init, last := residues[..|residues| - 1], residues[|residues| - 1];
      SelectedCoordsEmpty(init, numbers, types);
      AtomCoordsEmpty(last.atoms, types);
      var tail := if last.number in numbers then AtomCoords(last.atoms, types) else [];
      assert SelectedCoords(residues, numbers, types) == SelectedCoords(init, numbers, types) + tail;
      forall i, j ensures Picked(residues, numbers, types, i, j) <==>
        Picked(init, numbers, types, i, j) || (i == |init| && last.number in numbers && 0 <= j < |last.atoms| && last.atoms[j].name in types)
      {
        if 0 <= i < |init| {
          assert residues[i] == init[i];
        }
      }
      if tail != [] {
        var j :| 0 <= j < |last.atoms| && last.atoms[j].name in types;
        assert Picked(residues, numbers, types, |init|, j);
      }
      if SelectedCoords(init, numbers, types) != [] {
        var i, j :| Picked(init, numbers, types, i, j);
        assert Picked(residues, numbers, types, i, j);
      }
    }
  }

  /**
   * `get_residue_coords` returns a non-empty list exactly when the first chain with the id has a
   * listed residue with an atom of one of the names; otherwise it raises ValueError.
   */
  lemma ResidueCoordsOutcome<C>(structure: seq<Chain<C>>, chainId: string, numbers: seq<int>, types: seq<string>)
    ensures var r := ResidueCoords(structure, chainId, numbers, types);
      && (r.Ok? ==> r.value != [])
      && (r.Err? ==> r.error == NoCoordinates(chainId))
      && (r.Ok? <==> exists k, i, j :: FirstChain(structure, chainId) == Some(k) && Picked(structure[k].residues, numbers, types, i, j))
  {
    match FirstChain(structure, chainId)
    case None =>
    case Some(k) =>
      SelectedCoordsEmpty(structure[k].residues, numbers, types);
      if SelectedCoords(structure[k].residues, numbers, types) != [] {
        var i, j :| Picked(structure[k].residues, numbers, types, i, j);
        assert FirstChain(structure, chainId) == Some(k) && Picked(structure[k].residues, numbers, types, i, j);
      }
  }

  /** With every residue listed, the selection is the atom filter over the whole chain. */
  lemma {:induction false} SelectAllResidues<C>(residues: seq<Residue<C>>, numbers: seq<int>, types: seq<string>)
    requires forall i :: 0 <= i < |residues| ==> residues[i].number in numbers
    ensures SelectedCoords(residues, numbers, types) == AtomCoords(ChainAtoms(residues), types)
  {
    if residues != [] {
      var init, last := residues[..|residues| - 1], residues[|residues| - 1];
      SelectAllResidues(init, numbers, types);
      AtomCoordsAppend(ChainAtoms(init), last.atoms, types);
    }
  }

  // ---------------------------------------------------------------------------------------
  // align: extraction and the count check

  /** What `align` hands to the superimposer, two lists of one length, or what it raises before. */
  function AlignCoords<C>(native: seq<Chain<C>>, nativeChain: string, model: seq<Chain<C>>, modelChain: string, types: seq<string>)
    : (r: Result<CoordPair<C>, RmsdError>)
    ensures r.Ok? ==> |r.value.native| == |r.value.model|
    ensures r.Err? ==> r.error.Unbound? || r.error == AtomCountMismatch
  {
    match FirstChain(native, nativeChain)
    case None => Err(Unbound(Native))
    case Some(i) =>
      match FirstChain(model, modelChain)
      case None => Err(Unbound(Model))
      case Some(j) =>
        var a := AtomCoords(ChainAtoms(native[i].residues), types);
        var b := AtomCoords(ChainAtoms(model[j].residues), types);
        if |a| != |b| then Err(AtomCountMismatch) else Ok(CoordPair(a, b))
  }

  /** The loop over chains in `align`: the filtered atoms of the first chain with the id, if any. */
  method ExtractChain<C>(structure: seq<Chain<C>>, id: string, types: seq<string>) returns (coords: Option<seq<C>>)
    ensures coords.None? <==> FirstChain(structure, id).None?
    ensures coords.Some? ==> coords.value == AtomCoords(ChainAtoms(structure[FirstChain(structure, id).value].residues), types)
  {
    coords := None;
    for i := 0 to |structure|
      invariant forall k :: 0 <= k < i ==> structure[k].id != id
    {
      if structure[i].id == id {
        FirstChainAt(structure, id, i);
        coords := Some(AtomCoords(ChainAtoms(structure[i].residues), types));
        return;
      }
    }
  }

  /** `align` up to the superimposer: both extractions, then the count check. */
  method Align<C>(native: seq<Chain<C>>, nativeChain: string, model: seq<Chain<C>>, modelChain: string, types: seq<string>)
    returns (r: Result<CoordPair<C>, RmsdError>)
    ensures r == AlignCoords(native, nativeChain, model, modelChain, types)
  {
    var nativeCoords := ExtractChain(native, nativeChain, types);
    var modelCoords := ExtractChain(model, modelChain, types);
    if nativeCoords.None? {
      return Err(Unbound(Native));
    }
    if modelCoords.None? {
      return Err(Unbound(Model));
    }
    if |nativeCoords.value| != |modelCoords.value| {
      return Err(AtomCountMismatch);
    }
    return Ok(CoordPair(nativeCoords.value, modelCoords.value));
  }

  /**
   * `align` fails with the native list unbound when no native chain has the id, then with the
   * model list unbound when no model chain has it; with both chains found it fails exactly when
   * their filtered atom counts differ, and otherwise hands the two whole-chain selections, of one
   * length, to the superimposer. No other error is raised.
   */
  lemma AlignOutcome<C>(native: seq<Chain<C>>, nativeChain: string, model: seq<Chain<C>>, modelChain: string, types: seq<string>)
    ensures var r := AlignCoords(native, nativeChain, model, modelChain, types);
      && (r == Err(Unbound(Native)) <==> forall k :: 0 <= k < |native| ==> native[k].id != nativeChain)
      && (r == Err(Unbound(Model)) <==>
            (exists k :: 0 <= k < |native| && native[k].id == nativeChain)
            && forall k :: 0 <= k < |model| ==> model[k].id != modelChain)
      && (r.Err? ==> r.error in {Unbound(Native), Unbound(Model), AtomCountMismatch})
      && (FirstChain(native, nativeChain).Some? && FirstChain(model, modelChain).Some? ==>
            var a := AtomCoords(ChainAtoms(native[FirstChain(native, nativeChain).value].residues), types);
            var b := AtomCoords(ChainAtoms(model[FirstChain(model, modelChain).value].residues), types);
            && (r == Err(AtomCountMismatch) <==> |a| != |b|)
            && (r.Ok? <==> |a| == |b|))
      && (r.Ok? ==> |r.value.native| == |r.value.model|)
      && (r.Ok? ==> exists i, j ::
            && FirstChain(native, nativeChain) == Some(i) && FirstChain(model, modelChain) == Some(j)
            && r.value.native == SelectedCoords(native[i].residues, AllNumbers(native[i].residues), types)
            && r.value.model == SelectedCoords(model[j].residues, AllNumbers(model[j].residues), types))
  {
    var r := AlignCoords(native, nativeChain, model, modelChain, types);
    match FirstChain(native, nativeChain)
    case None =>
    case Some(i) =>
      assert native[i].id == nativeChain;
      match FirstChain(model, modelChain)
      case None =>
      case Some(j) =>
        SelectAllResidues(native[i].residues, AllNumbers(native[i].residues), types);
        SelectAllResidues(model[j].residues, AllNumbers(model[j].residues), types);
  }

  /** The numbers of all residues of a chain. */
  function AllNumbers<C>(residues: seq<Residue<C>>): (ns: seq<int>)
    ensures |ns| == |residues| && forall i :: 0 <= i < |residues| ==> ns[i] == residues[i].number
  {
    seq(|residues|, i requires 0 <= i < |residues| => residues[i].number)
  }

  // ---------------------------------------------------------------------------------------
  // rmsd_no_align: the length guard

  datatype AtomPair<C> = AtomPair(native: C, model: C)

  /**
   * The guard of `rmsd_no_align` and the atoms its deviation sum runs over: equal lengths give the
   * i-th native coordinate paired with the i-th model coordinate, unequal lengths the ValueError.
   */
  function PairAtoms<C>(native: seq<C>, model: seq<C>): (r: Result<seq<AtomPair<C>>, RmsdError>)
    ensures r.Ok? <==> |native| == |model|
    ensures r.Err? ==> r.error == AtomCountMismatch
    ensures r.Ok? ==> |r.value| == |native| && forall i :: 0 <= i < |native| ==> r.value[i] == AtomPair(native[i], model[i])
  {
    if |native| != |model| then Err(AtomCountMismatch)
    else Ok(seq(|native|, i requires 0 <= i < |native| => AtomPair(native[i], model[i])))
  }

  // ---------------------------------------------------------------------------------------
  // main: the three steps in order

  /**
   * The pairs `main` passes to the deviation sum: `align` first, then the two residue selections,
   * then the guard on the selections, the model's moved by the superposition's transform (a
   * parameter here: it is computed by the superimposer). The mean in `rmsd_no_align` is never
   * taken over zero pairs.
   */
  function MotifPairs<C>(native: seq<Chain<C>>, nativeChain: string, nativeResidueChain: string, nativeResidues: seq<int>,
                         model: seq<Chain<C>>, modelChain: string, modelResidueChain: string, modelResidues: seq<int>,
                         transform: C -> C)
    : (r: Result<seq<AtomPair<C>>, RmsdError>)
    ensures r.Ok? ==> r.value != []
  {
    match AlignCoords(native, nativeChain, model, modelChain, BackboneAtoms)
    case Err(e) => Err(e)
    case Ok(_) =>
      match ResidueCoords(native, nativeResidueChain, nativeResidues, BackboneAtoms)
      case Err(e) => Err(e)
      case Ok(a) =>
        match ResidueCoords(model, modelResidueChain, modelResidues, BackboneAtoms)
        case Err(e) => Err(e)
        case Ok(b) => PairAtoms(a, seq(|b|, i requires 0 <= i < |b| => transform(b[i])))
  }

  /**
   * `main` gets to a deviation only when the aligned chains have equal backbone counts and the two
   * motif selections are non-empty and of one length; it then pairs native atom i with moved model atom i.
   */
  lemma MotifPairsOk<C>(native: seq<Chain<C>>, nativeChain: string, nativeResidueChain: string, nativeResidues: seq<int>,
                        model: seq<Chain<C>>, modelChain: string, modelResidueChain: string, modelResidues: seq<int>,
                        transform: C -> C)
    requires MotifPairs(native, nativeChain, nativeResidueChain, nativeResidues,
                        model, modelChain, modelResidueChain, modelResidues, transform).Ok?
    ensures AlignCoords(native, nativeChain, model, modelChain, BackboneAtoms).Ok?
    ensures var a := ResidueCoords(native, nativeResidueChain, nativeResidues, BackboneAtoms);
      var b := ResidueCoords(model, modelResidueChain, modelResidues, BackboneAtoms);
      var ps := MotifPairs(native, nativeChain, nativeResidueChain, nativeResidues,
                           model, modelChain, modelResidueChain, modelResidues, transform).value;
      && a.Ok? && b.Ok? && a.value != [] && |a.value| == |b.value| == |ps|
      && forall i :: 0 <= i < |ps| ==> ps[i] == AtomPair(a.value[i], transform(b.value[i]))
  {
    ResidueCoordsOutcome(native, nativeResidueChain, nativeResidues, BackboneAtoms);
  }
}
