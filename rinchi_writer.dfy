/**
 * `ReactionInChIFormat::WriteMolecule`: writes a reaction as one RInChI 1.00
 * line. The InChI generator is a parameter `generate` (one optional text per
 * molecule, deterministic), molecules are opaque values of type `M`, and the
 * output stream is an `OutStream`.
 */
module RInChIWriter {
  import opened Wrappers
  import opened StringOrder
  import opened Sorting
  import opened Joining
  import opened InChITrim
  import opened Containers

  datatype Reaction<M> = Reaction(reactants: seq<M>, products: seq<M>, agents: seq<M>)

  const REACTANTS: nat := 0
  const PRODUCTS: nat := 1
  const AGENTS: nat := 2

  const RInChIHeader: string := "RInChI=1.00.1S/"
  const LayerSeparator: string := "<>"
  const ComponentSeparator: char := '!'

  /** The molecules of one role, selected as the `switch (part)` statements do. */
  function Part<M>(rxn: Reaction<M>, part: nat): seq<M>
    requires part <= AGENTS
  {
    if part == REACTANTS then rxn.reactants
    else if part == PRODUCTS then rxn.products
    else rxn.agents
  }

  /** The generator never prints the bare prefix `InChI=1S/` for these
      molecules; `TrimInChI` would read past the end of such a text. */
  predicate TrimSafe<M>(generate: M -> Option<string>, ms: seq<M>)
  {
    forall i :: 0 <= i < |ms| ==> generate(ms[i]) != Some(InChIPrefix)
  }

  predicate ReactionTrimSafe<M>(generate: M -> Option<string>, rxn: Reaction<M>)
  {
    TrimSafe(generate, rxn.reactants) && TrimSafe(generate, rxn.products) && TrimSafe(generate, rxn.agents)
  }

  /** The identifier extracted for one molecule: none when the generator
      fails or its text lacks the prefix, else the trimmed body. */
  function Identify<M>(generate: M -> Option<string>, m: M): Option<string>
    requires generate(m) != Some(InChIPrefix)
  {
    match generate(m)
    case None => None
    case Some(s) =>
      if HasInChIPrefix(s) then PrefixedTextIsLonger(s); Some(Trim(s))
      else None
  }

  predicate AllIdentified<M>(generate: M -> Option<string>, ms: seq<M>)
    requires TrimSafe(generate, ms)
  {
    forall i :: 0 <= i < |ms| ==> Identify(generate, ms[i]).Some?
  }

  /** The identifiers of `ms`, in index order. */
  function Identifiers<M>(generate: M -> Option<string>, ms: seq<M>): seq<string>
    requires TrimSafe(generate, ms) && AllIdentified(generate, ms)
  {
    seq(|ms|, i requires 0 <= i < |ms| => Identify(generate, ms[i]).value)
  }

  /** Every molecule of every role yields an identifier. */
  predicate Extracted<M>(generate: M -> Option<string>, rxn: Reaction<M>)
    requires ReactionTrimSafe(generate, rxn)
  {
    AllIdentified(generate, rxn.reactants) && AllIdentified(generate, rxn.products)
      && AllIdentified(generate, rxn.agents)
  }

  /** The RInChI line for the three layers in the order they are written. */
  function RInChIText(first: seq<string>, second: seq<string>, agents: seq<string>): string
  {
    RInChIHeader + Join(first, ComponentSeparator) + LayerSeparator
      + Join(second, ComponentSeparator) + LayerSeparator
      + Join(agents, ComponentSeparator) + "\n"
  }

  /** What `WriteMolecule` writes: nothing when some molecule yields no
      identifier, else the sorted reactant, product and agent layers. */
  function RInChI<M>(generate: M -> Option<string>, rxn: Reaction<M>): Option<string>
    requires ReactionTrimSafe(generate, rxn)
  {
    if Extracted(generate, rxn) then
      Some(RInChIText(SortSpec(Identifiers(generate, rxn.reactants)),
                      SortSpec(Identifiers(generate, rxn.products)),
                      SortSpec(Identifiers(generate, rxn.agents))))
    else None
  }

  /** The extraction loops: one generator call per molecule, reactants, then
      products, then agents, each in index order; the first failure or text
      without the prefix ends the writer with `false`. */
  method CollectInChIs<M>(generate: M -> Option<string>, rxn: Reaction<M>,
                          reactants: StringVector, products: StringVector, agents: StringVector)
    returns (ok: bool)
    requires ReactionTrimSafe(generate, rxn)
    requires reactants != products && products != agents && reactants != agents
    requires reactants.elems == [] && products.elems == [] && agents.elems == []
    modifies reactants, products, agents
    ensures ok == Extracted(generate, rxn)
    ensures ok ==> reactants.elems == Identifiers(generate, rxn.reactants)
    ensures ok ==> products.elems == Identifiers(generate, rxn.products)
    ensures ok ==> agents.elems == Identifiers(generate, rxn.agents)
  {
    var inchis := [reactants, products, agents];
    for part := REACTANTS to AGENTS + 1
      invariant forall k :: 0 <= k < part ==>
        AllIdentified(generate, Part(rxn, k)) && inchis[k].elems == Identifiers(generate, Part(rxn, k))
      invariant forall k :: part <= k <= AGENTS ==> inchis[k].elems == []
    {
      var mols := Part(rxn, part);
      for i := 0 to |mols|
        invariant AllIdentified(generate, mols[..i])
        invariant inchis[part].elems == Identifiers(generate, mols[..i])
        invariant forall k :: 0 <= k < part ==>
          AllIdentified(generate, Part(rxn, k)) && inchis[k].elems == Identifiers(generate, Part(rxn, k))
        invariant forall k :: part < k <= AGENTS ==> inchis[k].elems == []
      {
        var mol := mols[i];
        var written := generate(mol);
        if written.None? {
          return false;
        }
        var inchi := written.value;
        if !HasInChIPrefix(inchi) {
          return false;
        }
        PrefixedTextIsLonger(inchi);
        var trimmed := TrimInChI(inchi);
        inchis[part].PushBack(trimmed);
        assert mols[..i + 1] == mols[..i] + [mol];
      }
      assert mols[..|mols|] == mols;
    }
    assert Part(rxn, REACTANTS) == rxn.reactants && inchis[REACTANTS] == reactants;
    assert Part(rxn, PRODUCTS) == rxn.products && inchis[PRODUCTS] == products;
    assert Part(rxn, AGENTS) == rxn.agents && inchis[AGENTS] == agents;
    ok := true;
  }

  /** The direction loop, as written: the product iterator starts at `end()`,
      so the first pass leaves through one of the two exhaustion tests and the
      comparison is never reached. `Deref` stands for `*it`; past the end the
      model gives the empty string, where C++ would be undefined. */
  method ResolveDirection(reactants: seq<string>, products: seq<string>) returns (reactantsFirst: bool)
    ensures reactantsFirst
  {
    reactantsFirst := true;
    var productIt := |products|;
    for reactantIt := 0 to |reactants| + 1
      invariant reactantIt == 0 && productIt == |products|
      invariant reactantsFirst
    {
      if reactantIt == |reactants| {
        if productIt != |products| {
          reactantsFirst := false;
        }
        break;
      }
      if productIt == |products| {
        break;
      }
      if Less(Deref(reactants, reactantIt), Deref(products, productIt)) {
        reactantsFirst := false;
        break;
      }
      productIt := productIt + 1;
    }
  }

  function Deref(v: seq<string>, it: int): string
  {
    if 0 <= it < |v| then v[it] else ""
  }

  /** One layer: each element, preceded by `!` unless it is the first. */
  method WriteGroup(ofs: OutStream, group: StringVector)
    modifies ofs
    ensures ofs.text == old(ofs.text) + Join(group.elems, ComponentSeparator)
  {
    var items := group.elems;
    for vit := 0 to |items|
      invariant ofs.text == old(ofs.text) + Join(items[..vit], ComponentSeparator)
    {
      if vit != 0 {
        ofs.Write([ComponentSeparator]);
      }
      ofs.Write(items[vit]);
      assert items[..vit + 1][..vit] == items[..vit];
    }
    assert items[..|items|] == items;
  }

  /** The output section. `rxnComponents` is a reference: the assignment
      between the first two layers copies the second group over the storage
      of the group written first. That group has already been written, and
      the copy is what the second layer reads, so the text is the same as
      writing the two groups directly. */
  method WriteLayers(ofs: OutStream, reactants: StringVector, products: StringVector,
                     agents: StringVector, reactantsFirst: bool)
    requires reactants != products && agents != reactants && agents != products
    modifies ofs, reactants, products
    ensures reactantsFirst ==>
      ofs.text == old(ofs.text) + RInChIText(old(reactants.elems), old(products.elems), agents.elems)
    ensures !reactantsFirst ==>
      ofs.text == old(ofs.text) + RInChIText(old(products.elems), old(reactants.elems), agents.elems)
    ensures reactants.elems == old(products.elems) || !reactantsFirst
    ensures products.elems == old(reactants.elems) || reactantsFirst
    ensures reactantsFirst ==> products.elems == old(products.elems)
    ensures !reactantsFirst ==> reactants.elems == old(reactants.elems)
    ensures agents.elems == old(agents.elems)
  {
    ghost var before := ofs.text;
    ghost var first := if reactantsFirst then reactants.elems else products.elems;
    ghost var second := if reactantsFirst then products.elems else reactants.elems;
    ofs.Write(RInChIHeader);
    var rxnComponents := if reactantsFirst then reactants else products;
    WriteGroup(ofs, rxnComponents);
    ofs.Write(LayerSeparator);
    ghost var written := RInChIHeader + Join(first, ComponentSeparator) + LayerSeparator;
    assert ofs.text == before + written by {
      AppendAssoc3(before, RInChIHeader, Join(first, ComponentSeparator), LayerSeparator);
    }
    rxnComponents.Assign(if reactantsFirst then products else reactants);
    WriteGroup(ofs, rxnComponents);
    ofs.Write(LayerSeparator);
    assert ofs.text == before + (written + Join(second, ComponentSeparator) + LayerSeparator) by {
      AppendAssoc3(before, written, Join(second, ComponentSeparator), LayerSeparator);
    }
    written := written + Join(second, ComponentSeparator) + LayerSeparator;
    WriteGroup(ofs, agents);
    ofs.Write("\n");
    assert ofs.text == before + (written + Join(agents.elems, ComponentSeparator) + "\n") by {
      AppendAssoc3(before, written, Join(agents.elems, ComponentSeparator), "\n");
    }
  }

  /** `((a + b) + c) + d == a + ((b + c) + d)`. */
  lemma AppendAssoc3(a: string, b: string, c: string, d: string)
    ensures a + b + c + d == a + (b + c + d)
  {
  }

  /** The writer: extraction, the three sorts, the direction loop and the
      output. On failure nothing has been written. */
  method WriteMolecule<M>(rxn: Reaction<M>, generate: M -> Option<string>, ofs: OutStream)
    returns (ok: bool)
    requires ReactionTrimSafe(generate, rxn)
    modifies ofs
    ensures ok == RInChI(generate, rxn).Some?
    ensures ok ==> ofs.text == old(ofs.text) + RInChI(generate, rxn).value
    ensures !ok ==> ofs.text == old(ofs.text)
  {
    var reactants := new StringVector();
    var products := new StringVector();
    var agents := new StringVector();
    ok := CollectInChIs(generate, rxn, reactants, products, agents);
    if !ok {
      return;
    }
    reactants.Sort();
    products.Sort();
    agents.Sort();
    var reactantsFirst := ResolveDirection(reactants.elems, products.elems);
    WriteLayers(ofs, reactants, products, agents, reactantsFirst);
  }
}
