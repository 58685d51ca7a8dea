/**
 * Properties of the RInChI line as a whole: when the writer fails, that the
 * order in which molecules are listed within a role does not matter, and
 * that the line can be read back into its three sorted layers.
 */
module RInChIProperties {
  import opened Wrappers
  import opened Sorting
  import opened Joining
  import opened InChITrim
  import opened RInChIWriter

  /** All molecules of the reaction in the order the writer visits them. */
  function Molecules<M>(rxn: Reaction<M>): seq<M>
  {
    rxn.reactants + rxn.products + rxn.agents
  }

  /** The generator fails for `m`, or prints a text without the prefix. */
  predicate Rejected<M>(generate: M -> Option<string>, m: M)
  {
    generate(m).None? || !HasInChIPrefix(generate(m).value)
  }

  /** The writer fails exactly when some molecule, in any role, is rejected. */
  lemma FailsIffSomeMoleculeRejected<M>(generate: M -> Option<string>, rxn: Reaction<M>)
    requires ReactionTrimSafe(generate, rxn)
    ensures RInChI(generate, rxn).None? <==>
      exists i :: 0 <= i < |Molecules(rxn)| && Rejected(generate, Molecules(rxn)[i])
  {
    var all := Molecules(rxn);
    var r, p := |rxn.reactants|, |rxn.products|;
    if !Extracted(generate, rxn) {
      if !AllIdentified(generate, rxn.reactants) {
        var i :| 0 <= i < r && Identify(generate, rxn.reactants[i]).None?;
        assert all[i] == rxn.reactants[i];
      } else if !AllIdentified(generate, rxn.products) {
        var i :| 0 <= i < p && Identify(generate, rxn.products[i]).None?;
        assert all[r + i] == rxn.products[i];
      } else {
        var i :| 0 <= i < |rxn.agents| && Identify(generate, rxn.agents[i]).None?;
        assert all[r + p + i] == rxn.agents[i];
      }
    } else {
      forall i | 0 <= i < |all| ensures !Rejected(generate, all[i]) {
        if i < r {
          assert all[i] == rxn.reactants[i];
        } else if i < r + p {
          assert all[i] == rxn.products[i - r];
        } else {
          assert all[i] == rxn.agents[i - r - p];
        }
      }
    }
  }

  lemma {:induction false} IdentifiersConcat<M>(generate: M -> Option<string>, a: seq<M>, b: seq<M>)
    requires TrimSafe(generate, a + b) && AllIdentified(generate, a + b)
    ensures TrimSafe(generate, a) && AllIdentified(generate, a)
    ensures TrimSafe(generate, b) && AllIdentified(generate, b)
    ensures Identifiers(generate, a + b) == Identifiers(generate, a) + Identifiers(generate, b)
  {
    assert forall i :: 0 <= i < |a| ==> (a + b)[i] == a[i];
    assert forall i :: 0 <= i < |b| ==> (a + b)[|a| + i] == b[i];
  }

  /** Two lists with the same molecules (as a multiset) agree on whether every
      molecule is accepted. */
  lemma SameMoleculesSameAcceptance<M>(generate: M -> Option<string>, ms1: seq<M>, ms2: seq<M>)
    requires multiset(ms1) == multiset(ms2)
    requires TrimSafe(generate, ms1)
    ensures TrimSafe(generate, ms2)
    ensures AllIdentified(generate, ms1) <==> AllIdentified(generate, ms2)
  {
    forall i | 0 <= i < |ms2| ensures exists j :: 0 <= j < |ms1| && ms1[j] == ms2[i] {
      assert ms2[i] in multiset(ms1);
    }
    forall i | 0 <= i < |ms1| ensures exists j :: 0 <= j < |ms2| && ms2[j] == ms1[i] {
      assert ms1[i] in multiset(ms2);
    }
  }

  /** Permuting the molecules permutes their identifiers. */
  lemma {:induction false} IdentifiersPermutation<M>(generate: M -> Option<string>, ms1: seq<M>, ms2: seq<M>)
    requires multiset(ms1) == multiset(ms2)
    requires TrimSafe(generate, ms1) && AllIdentified(generate, ms1)
    ensures TrimSafe(generate, ms2) && AllIdentified(generate, ms2)
    ensures multiset(Identifiers(generate, ms1)) == multiset(Identifiers(generate, ms2))
    decreases |ms1|
  {
    SameMoleculesSameAcceptance(generate, ms1, ms2);
    if |ms1| == 0 {
      assert |ms2| == |multiset(ms2)| == 0;
    } else {
      var x := ms1[0];
      assert x in multiset(ms2);
      var k :| 0 <= k < |ms2| && ms2[k] == x;
      var rest1, rest2 := ms1[1..], ms2[..k] + ms2[k + 1..];
      assert ms1 == [x] + rest1;
      assert ms2 == ms2[..k] + ([x] + ms2[k + 1..]);
      assert multiset(rest1) == multiset(ms1) - multiset{x};
      assert multiset(rest2) == multiset(ms2) - multiset{x};
      IdentifiersConcat(generate, [x], rest1);
      IdentifiersConcat(generate, ms2[..k], [x] + ms2[k + 1..]);
      IdentifiersConcat(generate, [x], ms2[k + 1..]);
      IdentifiersPermutation(generate, rest1, rest2);
      IdentifiersConcat(generate, ms2[..k], ms2[k + 1..]);
    }
  }

  /** The line does not depend on the order in which the molecules of each
      role are listed: each group is sorted before it is written. */
  lemma OrderIndependence<M>(generate: M -> Option<string>, rxn1: Reaction<M>, rxn2: Reaction<M>)
    requires multiset(rxn1.reactants) == multiset(rxn2.reactants)
    requires multiset(rxn1.products) == multiset(rxn2.products)
    requires multiset(rxn1.agents) == multiset(rxn2.agents)
    requires ReactionTrimSafe(generate, rxn1)
    ensures ReactionTrimSafe(generate, rxn2)
    ensures RInChI(generate, rxn1) == RInChI(generate, rxn2)
  {
    SameMoleculesSameAcceptance(generate, rxn1.reactants, rxn2.reactants);
    SameMoleculesSameAcceptance(generate, rxn1.products, rxn2.products);
    SameMoleculesSameAcceptance(generate, rxn1.agents, rxn2.agents);
    if Extracted(generate, rxn1) {
      IdentifiersPermutation(generate, rxn1.reactants, rxn2.reactants);
      IdentifiersPermutation(generate, rxn1.products, rxn2.products);
      IdentifiersPermutation(generate, rxn1.agents, rxn2.agents);
      SortSpecPermutationInvariant(Identifiers(generate, rxn1.reactants), Identifiers(generate, rxn2.reactants));
      SortSpecPermutationInvariant(Identifiers(generate, rxn1.products), Identifiers(generate, rxn2.products));
      SortSpecPermutationInvariant(Identifiers(generate, rxn1.agents), Identifiers(generate, rxn2.agents));
    }
  }

  /** A group that can be read back out of a layer: non-empty members without
      `!` or `<`. */
  predicate Layerable(group: seq<string>)
  {
    Plain(group, ComponentSeparator) && forall i :: 0 <= i < |group| ==> '<' !in group[i]
  }

  /** Reads a RInChI line back into its three layers. */
  function ParseRInChI(text: string): Option<(seq<string>, seq<string>, seq<string>)>
  {
    if |text| <= |RInChIHeader| || text[..|RInChIHeader|] != RInChIHeader || text[|text| - 1] != '\n' then None
    else
      var layers := SplitAt(text[|RInChIHeader|..|text| - 1], '<');
      if |layers| != 3 || |layers[1]| == 0 || layers[1][0] != '>' || |layers[2]| == 0 || layers[2][0] != '>' then None
      else Some((SplitGroup(layers[0], ComponentSeparator),
                 SplitGroup(layers[1][1..], ComponentSeparator),
                 SplitGroup(layers[2][1..], ComponentSeparator)))
  }

  /** The text between the header and the final line break. */
  lemma RInChITextShape(first: seq<string>, second: seq<string>, agents: seq<string>)
    ensures RInChIText(first, second, agents) == RInChIHeader
      + (Join(first, '!') + LayerSeparator + Join(second, '!') + LayerSeparator + Join(agents, '!')) + "\n"
  {
  }

  /** Three layers free of `<` split at `<` into the layers, the last two
      still led by the `>` of their separator. */
  lemma SplitLayers(j1: string, j2: string, j3: string)
    requires '<' !in j1 && '<' !in j2 && '<' !in j3
    ensures SplitAt(j1 + LayerSeparator + j2 + LayerSeparator + j3, '<') == [j1, ['>'] + j2, ['>'] + j3]
  {
    var tail := (['>'] + j2) + ['<'] + (['>'] + j3);
    assert j1 + LayerSeparator + j2 + LayerSeparator + j3 == j1 + ['<'] + tail;
    SplitAtConcat(j1, tail, '<');
    SplitAtConcat(['>'] + j2, ['>'] + j3, '<');
    SplitAtAbsent(j1, '<');
    SplitAtAbsent(['>'] + j2, '<');
    SplitAtAbsent(['>'] + j3, '<');
  }

  /** The layout loses nothing: each layer reads back as the group written. */
  lemma ParseRInChIText(first: seq<string>, second: seq<string>, agents: seq<string>)
    requires Layerable(first) && Layerable(second) && Layerable(agents)
    ensures ParseRInChI(RInChIText(first, second, agents)) == Some((first, second, agents))
  {
    var j1, j2, j3 := Join(first, '!'), Join(second, '!'), Join(agents, '!');
    JoinExcludes(first, '!', '<');
    JoinExcludes(second, '!', '<');
    JoinExcludes(agents, '!', '<');
    var text := RInChIText(first, second, agents);
    var body := j1 + LayerSeparator + j2 + LayerSeparator + j3;
    RInChITextShape(first, second, agents);
    assert text[..|RInChIHeader|] == RInChIHeader;
    assert text[|RInChIHeader|..|text| - 1] == body;
    SplitLayers(j1, j2, j3);
    assert (['>'] + j2)[1..] == j2 && (['>'] + j3)[1..] == j3;
    SplitJoin(first, '!');
    SplitJoin(second, '!');
    SplitJoin(agents, '!');
  }

  /** A successful write reads back as the reactant, product and agent
      identifiers, each group sorted and with its duplicates. */
  lemma ReadBackWrittenRInChI<M>(generate: M -> Option<string>, rxn: Reaction<M>)
    requires ReactionTrimSafe(generate, rxn) && Extracted(generate, rxn)
    requires Layerable(Identifiers(generate, rxn.reactants))
    requires Layerable(Identifiers(generate, rxn.products))
    requires Layerable(Identifiers(generate, rxn.agents))
    ensures RInChI(generate, rxn).Some?
    ensures ParseRInChI(RInChI(generate, rxn).value).Some?
    ensures var (r, p, a) := ParseRInChI(RInChI(generate, rxn).value).value;
      && Sorted(r) && multiset(r) == multiset(Identifiers(generate, rxn.reactants))
      && Sorted(p) && multiset(p) == multiset(Identifiers(generate, rxn.products))
      && Sorted(a) && multiset(a) == multiset(Identifiers(generate, rxn.agents))
  {
    var r0, p0, a0 := Identifiers(generate, rxn.reactants), Identifiers(generate, rxn.products),
                      Identifiers(generate, rxn.agents);
    SortSpecSortsAndPermutes(r0);
    SortSpecSortsAndPermutes(p0);
    SortSpecSortsAndPermutes(a0);
    LayerablePermutation(r0, SortSpec(r0));
    LayerablePermutation(p0, SortSpec(p0));
    LayerablePermutation(a0, SortSpec(a0));
    ParseRInChIText(SortSpec(r0), SortSpec(p0), SortSpec(a0));
  }

  lemma LayerablePermutation(a: seq<string>, b: seq<string>)
    requires Layerable(a) && multiset(a) == multiset(b)
    ensures Layerable(b)
  {
    forall i | 0 <= i < |b| ensures b[i] != "" && '!' !in b[i] && '<' !in b[i] {
      assert b[i] in multiset(a);
    }
  }

  /** A reaction with no molecules is written as two empty layer pairs. */
  lemma EmptyReaction<M>(generate: M -> Option<string>)
    ensures RInChI(generate, Reaction([], [], [])) == Some("RInChI=1.00.1S/<><>\n")
  {
    var empty := Reaction([], [], []);
    assert Identifiers(generate, []) == [];
    assert Extracted(generate, empty);
    assert RInChI(generate, empty) == Some(RInChIText([], [], []));
    var t := RInChIText([], [], []);
    assert t == RInChIHeader + LayerSeparator + LayerSeparator + "\n";
    assert |t| == |"RInChI=1.00.1S/<><>\n"|;
    assert forall i :: 0 <= i < |t| ==> t[i] == "RInChI=1.00.1S/<><>\n"[i];
    assert t == "RInChI=1.00.1S/<><>\n";
    assert RInChI(generate, empty) == Some("RInChI=1.00.1S/<><>\n");
  }

  function Echo(text: string): Option<string>
  {
    Some(text)
  }

  const Ethanol: string := "InChI=1S/C2H6O/c1-2-3/h3H,2H2,1H3\n"
  const Acetaldehyde: string := "InChI=1S/C2H4O/c1-2-3/h2H,1H3\n"

  /** A generator that prints the prefix, a one-line body and a line break
      yields that body. */
  lemma EchoIdentifier(text: string, body: string)
    requires body != "" && '\n' !in body && '\0' !in body
    requires text == InChIPrefix + body + "\n"
    ensures Echo(text) != Some(InChIPrefix)
    ensures Identify(Echo, text) == Some(body)
  {
    assert text[..|InChIPrefix|] == InChIPrefix;
    assert text[9..9 + |body|] == body;
    assert forall k :: 1 <= k < |body| ==> body[k] in body;
    TrimCharacterization(text, body);
  }

  /** One reactant and one product: the reactant layer is written first,
      whatever the two identifiers are. */
  lemma OneReactantOneProduct<M>(generate: M -> Option<string>, x: M, y: M, r: string, p: string)
    requires generate(x) != Some(InChIPrefix) && generate(y) != Some(InChIPrefix)
    requires Identify(generate, x) == Some(r) && Identify(generate, y) == Some(p)
    ensures ReactionTrimSafe(generate, Reaction([x], [y], []))
    ensures RInChI(generate, Reaction([x], [y], [])) == Some(RInChIHeader + r + "<>" + p + "<>" + "\n")
  {
    var rxn := Reaction([x], [y], []);
    assert Identifiers(generate, [x]) == [r];
    assert Identifiers(generate, [y]) == [p];
    assert Identifiers(generate, []) == [];
    SortSpecSingleton(r);
    SortSpecSingleton(p);
    assert RInChI(generate, rxn) == Some(RInChIText([r], [p], []));
    assert Join([r], ComponentSeparator) == r && Join([p], ComponentSeparator) == p;
    assert Join([], ComponentSeparator) == "";
    assert RInChIText([r], [p], []) == RInChIHeader + r + "<>" + p + "<>" + "" + "\n";
    assert RInChIHeader + r + "<>" + p + "<>" + "" + "\n" == RInChIHeader + r + "<>" + p + "<>" + "\n";
  }

  /** Ethanol to acetaldehyde, molecules given by their InChI texts. The
      product identifier sorts before the reactant one, and still the
      reactant layer comes first. */
  lemma EthanolToAcetaldehyde()
    ensures ReactionTrimSafe(Echo, Reaction([Ethanol], [Acetaldehyde], []))
    ensures RInChI(Echo, Reaction([Ethanol], [Acetaldehyde], []))
      == Some("RInChI=1.00.1S/" + "C2H6O/c1-2-3/h3H,2H2,1H3" + "<>" + "C2H4O/c1-2-3/h2H,1H3" + "<>" + "\n")
  {
    var r, p := "C2H6O/c1-2-3/h3H,2H2,1H3", "C2H4O/c1-2-3/h2H,1H3";
    EthanolTexts();
    EchoIdentifier(Ethanol, r);
    EchoIdentifier(Acetaldehyde, p);
    OneReactantOneProduct(Echo, Ethanol, Acetaldehyde, r, p);
  }

  lemma EthanolTexts()
    ensures Ethanol == InChIPrefix + "C2H6O/c1-2-3/h3H,2H2,1H3" + "\n"
    ensures Acetaldehyde == InChIPrefix + "C2H4O/c1-2-3/h2H,1H3" + "\n"
  {
  }
}
