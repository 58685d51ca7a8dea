# RInChI writer — a Dafny model

This project models the output side of Open Babel's Reaction InChI format
(`src/formats/rinchiformat.cpp`). Given a reaction, the writer:

- generates a standard InChI for every reactant, then every product, then
  every agent;
- keeps only the line that follows the `InChI=1S/` prefix (`TrimInChI`);
- sorts the identifiers of each role;
- runs the "direction" loop that decides which group is written first;
- prints one line of the form `RInChI=1.00.1S/<group>!<group>…<><…><><agents>\n`.

The model keeps the imperative form of the C++ code:

- `TrimInChI` is a method with a `while` loop, proved against a pure `Trim`
  function and an independent characterisation `IsTrimOf`.
- The per-role vectors are a `StringVector` class. Its `PushBack`, `Sort` and
  `Assign` update the field `elems` in place.
- The output stream is an `OutStream` class whose text only grows.
- `WriteMolecule` allocates the three vectors and runs the same steps as the
  source. Its contract ties the final stream to the pure specification
  `RInChIWriter.RInChI`. The lemmas in `RInChIProperties` are proved about
  that specification.

The InChI generator, which is the `inchi` format driven through an
`OBConversion` into a `stringstream`, is a parameter:

- `generate: M -> Option<string>` maps a molecule to the text it writes, or
  `None` when writing fails.
- The molecule type `M` is left abstract.
- String comparison (`std::string::operator<`) is `StringOrder.Less`: strict
  lexicographic order on character codes, with a proper prefix smaller. For
  the byte strings an InChI consists of, this is the same as unsigned byte
  order.

Two behaviours of the code as written are modelled literally:

- **Direction.** At line 168 the product iterator starts at `end()`. The first
  pass of the loop at lines 169-184 therefore always leaves through one of the
  two exhaustion tests, and `reactants_first` stays `true`. So the reactant
  layer is always written first, whatever the identifiers are. A description
  of the format elsewhere says a reaction whose product sorts before its
  reactant is written products-first. The model follows the code:
  `ResolveDirection` proves `reactantsFirst` outright, and
  `EthanolToAcetaldehyde` shows the reactant layer first.
- **Aliasing.** `rxn_components` at line 187 is a reference to one of the
  vectors. The assignment at line 194 copies the other vector into the
  referenced one rather than re-seating the reference. `WriteLayers` performs
  that copy (`StringVector.Assign`) on the aliased vector, and its contract
  shows two things:
  - the vector that was written first is overwritten;
  - the emitted text is still "first group, `<>`, second group, `<>`, agents",
    because the first group was already written and the agents are untouched.

## Model

| member | source | states |
|---|---|---|
| InChITrim.TrimInChI | src/formats/rinchiformat.cpp:99-110 | the loop's result is the text from offset 9 up to, not including, the first `\n` or end of string after offset 9; the character at offset 9 is always taken, even when it is a line end; equals `Trim` |
| InChITrim.TrimCharacterization | src/formats/rinchiformat.cpp:99-110 | `IsTrimOf(inchi, t)` (t starts at offset 9, has no line end after its first character, and is followed by a line end or the end of the text) holds exactly when `t == Trim(inchi)`, in both directions |
| InChITrim.TakeLineIsFirstLine | src/formats/rinchiformat.cpp:103-108 | the scanned line has no line end and stops exactly at the first line end or at the end of the text |
| StringOrder.LessIrreflexive | src/formats/rinchiformat.cpp:162-164 | no string sorts before itself |
| StringOrder.LessTransitive | src/formats/rinchiformat.cpp:162-164 | string order is transitive |
| StringOrder.LessTotal | src/formats/rinchiformat.cpp:162-164 | any two distinct strings are ordered one way or the other (strict weak order, as `std::sort` needs) |
| StringOrder.LessAsymmetric | src/formats/rinchiformat.cpp:178 | the comparison cannot hold both ways |
| StringOrder.LessOrEqualAntisymmetric | src/formats/rinchiformat.cpp:162-164 | two strings each not less than the other are equal |
| StringOrder.LessOrEqualTransitive | src/formats/rinchiformat.cpp:162-164 | the non-strict order is transitive |
| Sorting.SortSpecSortsAndPermutes | src/formats/rinchiformat.cpp:162-164 | the reference sort is sorted and a permutation of its input |
| Sorting.SortedUnique | src/formats/rinchiformat.cpp:162-164 | two sorted permutations of each other are equal, so the sort's result does not depend on the algorithm |
| Sorting.SortedPermutationIsSortSpec | src/formats/rinchiformat.cpp:162-164 | any sorted permutation of s is the reference sort of s |
| Sorting.SortSpecPermutationInvariant | src/formats/rinchiformat.cpp:162-164 | permuting the input does not change the sorted result |
| Sorting.SortIdempotent | src/formats/rinchiformat.cpp:162-164 | sorting a sorted group changes nothing |
| Containers.StringVector.PushBack | src/formats/rinchiformat.cpp:157 | appends exactly one element at the end |
| Containers.StringVector.Sort | src/formats/rinchiformat.cpp:162-164 | in-place sort: the new contents are sorted, a permutation of the old contents, and equal to the reference sort of them |
| Containers.SinkLast | src/formats/rinchiformat.cpp:162-164 | one insertion step: sorted prefix extended by one, the rest untouched, a permutation of the input |
| Containers.StringVector.Assign | src/formats/rinchiformat.cpp:194 | vector copy-assignment: the target's contents become the source's contents |
| Containers.OutStream.Write | src/formats/rinchiformat.cpp:186-207 | `operator<<` appends its argument to the stream text |
| Joining.JoinSeparatorCount | src/formats/rinchiformat.cpp:188-192 | a group of N identifiers without `!` is written with exactly N-1 separators (none when empty) |
| Joining.SplitJoin | src/formats/rinchiformat.cpp:188-192 | splitting a written group at `!` gives back its identifiers when none is empty or contains `!` |
| RInChIWriter.CollectInChIs | src/formats/rinchiformat.cpp:135-160 | succeeds exactly when every molecule of every role yields text with the `InChI=1S/` prefix; then each role's vector holds the trimmed identifiers in molecule order |
| RInChIWriter.ResolveDirection | src/formats/rinchiformat.cpp:166-184 | the direction loop as written always ends with `reactants_first` true |
| RInChIWriter.WriteGroup | src/formats/rinchiformat.cpp:188-192 | the stream gains the group's elements joined by `!` |
| RInChIWriter.WriteLayers | src/formats/rinchiformat.cpp:186-207 | the stream gains header, first group, `<>`, second group, `<>`, agents, newline for either direction; the aliased copy at line 194 overwrites the first-written vector and nothing else |
| RInChIWriter.WriteMolecule | src/formats/rinchiformat.cpp:135-208 | returns true exactly when the specification gives a RInChI, and then appends exactly that line; on false the stream is unchanged |
| RInChIProperties.FailsIffSomeMoleculeRejected | src/formats/rinchiformat.cpp:150-156 | the writer fails exactly when some molecule's InChI generation fails or lacks the `InChI=1S/` prefix |
| RInChIProperties.SameMoleculesSameAcceptance | src/formats/rinchiformat.cpp:143-157 | two lists with the same molecules are accepted or rejected together |
| RInChIProperties.IdentifiersPermutation | src/formats/rinchiformat.cpp:143-157 | permuting a role's molecules permutes its identifiers |
| RInChIProperties.IdentifiersConcat | src/formats/rinchiformat.cpp:143-157 | identifiers of concatenated lists are the concatenated identifiers |
| RInChIProperties.OrderIndependence | src/formats/rinchiformat.cpp:162-207 | reordering the molecules within any role does not change the written RInChI |
| RInChIProperties.ParseRInChIText | src/formats/rinchiformat.cpp:186-207 | reading a written line back gives the three groups it was written from, whenever the identifiers are nonempty and free of `!` and `<` |
| RInChIProperties.SplitLayers | src/formats/rinchiformat.cpp:193-200 | the two `<>` separators split the body into exactly three layers |
| RInChIProperties.ReadBackWrittenRInChI | src/formats/rinchiformat.cpp:157-207 | each layer read back from a written RInChI is sorted and a permutation of that role's identifiers, reactants first |
| RInChIProperties.LayerablePermutation | src/formats/rinchiformat.cpp:162-164 | sorting keeps identifiers nonempty and free of separators |
| RInChIProperties.EmptyReaction | src/formats/rinchiformat.cpp:186-207 | a reaction with no molecules is written as `RInChI=1.00.1S/<><>\n` |
| RInChIProperties.OneReactantOneProduct | src/formats/rinchiformat.cpp:166-207 | one reactant and one product are written reactant layer first, whatever their order |
| RInChIProperties.EthanolToAcetaldehyde | src/formats/rinchiformat.cpp:166-207 | ethanol to acetaldehyde is written with the ethanol layer first, although acetaldehyde's identifier sorts first |
| RInChIProperties.EchoIdentifier | src/formats/rinchiformat.cpp:99-110 | a one-line InChI with the standard prefix trims to its body |

## Left out

- Format registration, the description, MIME type and type information (lines 31-57, 90) are not modelled; they hold no logic.
- The reading side (`ReadChemObject` at lines 67-70, `ReadMolecule` at lines 93-96) is not modelled: both only return true.
- The `WriteChemObject` wrapper (lines 72-85) is not modelled: it casts, calls `WriteMolecule` and deletes the object.
- The `dynamic_cast` failure at lines 117-119 is not modelled: the model's input is already typed as a reaction.
- `FindFormat("inchi")` failure at lines 122-124 is not modelled: the generator is always available as a parameter.
- The `OBConversion` set-up, the `stringstream` and its reset (lines 126-129, 154, 158) are folded into the generator parameter, which returns the text of one molecule.
- InChI generation itself and the `OBReaction` accessors are not modelled: molecules are an abstract type and roles are sequences.
- The generator is a pure function, so the order of its side effects and its calls are not observable. The model still calls it in the source's order.
- The stream's error state (failbit, badbit) is not modelled: every `operator<<` appends.
- The direction loop's `*product_it` at `end()` is undefined behaviour in C++. That comparison is never reached, and `Deref` gives the empty string there.
- `std::sort`'s algorithm is replaced by insertion sort. The contract states the sorted-permutation result, and `SortedUnique` shows that this result is unique.
- `std::vector` storage is a `seq` field, not an array.
- RInChIWriter.WriteMolecule: requires that the generator never returns exactly `InChI=1S/` with nothing after it. For that text, `TrimInChI` would read past the terminating NUL, which is undefined behaviour.
- InChITrim.TrimInChI: requires `|inchi| > 9`, for the same out-of-bounds read. The source assumes at least one character follows the prefix.
