# SANSPRO model-file reference integrity, in Dafny

SANSPRO stores a structural model as one text file (`.MDL`). The file is a
sequence of `*HEADER*` blocks: nodes, materials, sections, designs, element
sets ("elsets"), slabs, beam and column layouts, diaphragms, loading. The
Python library this project models reads these blocks into indexed
collections. It merges two models name by name, renumbers the merged
collections 1..N, and rebinds every reference (an elset index held by a
slab, a beam or a column) through the old-to-new index map the merge
returns. It also replicates nodes along a grid, normalises four-node
elements, keeps diaphragms in step with the nodes, and writes the blocks
back.

The Dafny modules follow the source files:

| module | models |
|---|---|
| `Wrappers`, `Text`, `Scan` | Python's `Optional`, its exceptions, and the string built-ins and regular expressions used by the name parsers (helpers) |
| `Store` | the indexed collection: the object list plus its index dictionary |
| `Keys`, `Sorting` | Python tuple comparison of sort keys, and the stable `sorted` |
| `Merge` | `merge_and_reorder`, current and legacy |
| `Designs`, `Sections`, `Splitters`, `Materials` | name-parsing sort keys, the name splitters, and the section and material factories |
| `Elsets`, `SectionProps` | the elset merger and the section-property export |
| `Layouts`, `Framing`, `FloorLayouts`, `Slabs`, `Rebind`, `CompactBeams` | layout containers, block framing into layouts, elset rebinding, compact beam layouts |
| `Nodes`, `NodeQuery`, `Geometry` | node replication, node queries, quad canonicalisation |
| `Diaphragms` | the MDIAPHTAB block and diaphragm index synchronisation |
| `ModelText`, `ModelTextWrite` | splitting a model file into blocks, and writing it back |
| `Variables`, `Loading` | `label = value` variable blocks and load-combination tables |

Objects are values. A collection is `Coll<D>(objects, byIndex)`: the list
in insertion order plus the `_index` dictionary. The two are kept apart so
that a dictionary left stale by an operation can be stated. Errors are
`Result` values that name the Python exception raised. Coordinates are
exact reals, and tolerances are parameters or the source's constants.

Where the source's documentation and its code disagree, the model follows
the code:
- the replication grid is `ix < nx` (Python's `range(nx)`), not `0..nx`;
- the beam and column counter is reset once per block, not per floor;
- members met before the first layout header join the first layout;
- `RECT_200X400` splits with the prefix `RECT_`, since the prefix pattern takes underscores;
- `from_text` does not save a final block whose header was already saved.

One exception: the merges sort designs by a corrected total order, where the
code's `sorted` can raise TypeError (see "## Left out" and "## Findings").

## Model

| member | source | states |
|---|---|---|
| Store.IndexMap | collection/_collection_abstract.py:29-36 | the dictionary built by adding objects one by one holds exactly the indices some object carries, each mapped to an object of the list with that index |
| Store.FromSeq | collection/_collection_abstract.py:21-31 | a collection built from a list keeps the list in order and a dictionary consistent with it |
| Store.Add | collection/_collection_abstract.py:33-36 | `add` appends the object, maps its index to it, and leaves every other index as it was |
| Store.AddConsistent | collection/_collection_abstract.py:33-36 | adding to a consistent collection keeps the dictionary consistent with the list |
| Store.Extend | collection/_collection_abstract.py:44-46 | `extend` appends the objects in order |
| Store.ExtendConsistent | collection/_collection_abstract.py:44-46 | extending keeps the dictionary consistent with the list |
| Store.Get | collection/_collection_abstract.py:51-52 | `get` answers exactly for the indices in the dictionary, with the stored object |
| Store.IndexMapLast | collection/_collection_abstract.py:29-36 | adding the objects one by one leaves each index of the dictionary mapped to the last object carrying it |
| Store.GetConsistent | collection/_collection_abstract.py:51-52 | on a consistent collection `get` is None exactly when no object carries the index, and otherwise the last object of the list carrying it |
| Store.AddThenGet | collection/_collection_abstract.py:33-52 | after `add(e)`, `get(e.index)` is `e` and every other lookup is unchanged |
| Store.RemoveFirst | collection/_collection_abstract.py:40 | `list.remove` takes out the first occurrence of the object and keeps the other elements in their order |
| Store.Remove | collection/_collection_abstract.py:38-42 | `remove` of a present object drops its first occurrence from the list, keeping the rest in order, and its index from the dictionary, leaving the other entries; an absent object changes nothing |
| Store.SortedInts | collection/_collection_abstract.py:48-49 | `sorted` of an integer set is strictly increasing and holds exactly the set's elements |
| Store.IndexList | collection/_collection_abstract.py:48-49 | `index_list` is strictly increasing and holds exactly the dictionary's keys |
| Store.GetByName | collection/_collection_abstract.py:119-142 | `get_by_name` raises AttributeError exactly when the first object has no name; otherwise it returns the first object with that name, or None when there is none (also for an empty collection) |
| Store.FirstNamed | collection/_collection_abstract.py:138-142 | the scan returns the first object with the name, or None when no object has it |
| Store.RefsOf | collection/_collection_abstract.py:86-101 | the elset indices one object contributes: its own `elset`, or the elsets of the items of its lists |
| Store.CollectRefs | collection/_collection_abstract.py:84-103 | the collected set holds exactly the indices some object refers to |
| Store.UsedElsets | collection/_collection_abstract.py:76-103 | `get_used_elsets` holds exactly the referenced indices, and is empty for an empty collection |
| Store.UsedElsetsStrict | collection/CollectionAbstract.py:72-108 | the legacy `get_used_elsets` raises AttributeError exactly when a non-empty collection refers to no elset, and otherwise holds exactly the referenced indices |
| Store.UsedElsetsAgree | collection/CollectionAbstract.py:72-108 | whenever the legacy version answers, it answers as the current one |
| Keys.PyKeyLess | collection/_collection_abstract.py:792 | Python's tuple `<` fails only with TypeError, which happens at a first differing position that mixes a number and a string |
| Keys.PyKeyLessAgrees | collection/_collection_abstract.py:792 | wherever Python's tuple comparison answers, the model's key order gives the same answer |
| Keys.PyKeyLessAt | collection/_collection_abstract.py:792 | the comparison is decided at the first position where the keys differ, and raises there exactly when the two atoms are a number and a string |
| Keys.SameShapeNeverRaises | collection/_collection_abstract.py:792 | keys whose positions have matching kinds never make the comparison raise |
| Keys.KeyLessTransitive | collection/_collection_abstract.py:792 | the key order that `sorted` relies on is transitive |
| Keys.KeyLessTotal | collection/_collection_abstract.py:792 | any two different keys are ordered one way or the other |
| Keys.KeyLessIrreflexive | collection/_collection_abstract.py:792 | no key sorts before itself |
| Keys.TypePriority | collection/designs.py:937-945 | `type_order.index(t)` with `len(type_order)` for an unlisted type: the position of the first equal entry, and the length exactly when the type is not listed |
| Sorting.SortBy | collection/_collection_abstract.py:792 | `sorted(merged, key=key)` returns a permutation of its input |
| Sorting.SortByCorrect | collection/_collection_abstract.py:792 | the sort is a permutation, ordered by key, and stable: elements with equal keys keep their input order |
| Merge.AttrAtom | collection/designs.py:898-925 | `getattr(o, a, inf)` as a key position: infinity exactly when the attribute is missing, else the attribute's number or text |
| Merge.Overwrite | collection/_collection_abstract.py:838-843 | copying attributes keeps the existing index and class, takes the imported name, and holds every imported attribute over the existing ones |
| Merge.Lookup | collection/_collection_abstract.py:741-746 | the name dictionary holds exactly the names of the objects |
| Merge.LookupDistinct | collection/_collection_abstract.py:741-746 | the name dictionary has one entry per name |
| Merge.LookupValue | collection/_collection_abstract.py:741-746 | the entry for a name is the last object carrying it |
| Merge.KeptExisting | collection/_collection_abstract.py:758-780 | step 1 keeps the names of exactly the existing objects that are imported, or kept because nothing is removed, or protected by `used_elsets`, each overwritten by its imported twin |
| Merge.NewImports | collection/_collection_abstract.py:785-787 | step 2 adds exactly the imported objects whose name is not already present |
| Merge.Renumber | collection/_collection_abstract.py:815-816 | the k-th sorted object gets index k + 1 and keeps its other fields |
| Merge.ReorderMap | collection/_collection_abstract.py:806-810 | the reorder map has keys exactly for original indices of existing objects whose name survives, with values in 1..N |
| Merge.MergeAndReorder | collection/_collection_abstract.py:730-833 | the merged collection has indices 1..N and a dictionary consistent with its list |
| Merge.MergeAndReorderLegacy | collection/CollectionAbstract.py:322-403 | the legacy merge also renumbers 1..N with a consistent dictionary |
| Merge.MergeNames | collection/_collection_abstract.py:758-787 | a name is in the merged collection exactly when it is imported, or it is existing and either nothing is removed or its object's index is in `used_elsets` |
| Merge.MergeContents | collection/_collection_abstract.py:758-787 | each merged name holds its existing record overwritten by the imported one (index and class kept), the imported record, or the untouched existing record |
| Merge.MergeOrder | collection/_collection_abstract.py:792-822 | the merged collection is in key order, has unique names and indices 1..N |
| Merge.MergeReorder | collection/_collection_abstract.py:797-816 | the reorder map sends a surviving existing object's original index to the new index of the object with its name |
| Merge.MergeReorderDomain | collection/_collection_abstract.py:806-810 | the reorder map has an entry exactly for the original index of an existing name that survives, never for a newly imported one |
| Merge.MergeRemovedAny | collection/_collection_abstract.py:828-831 | `removed_any` holds exactly when `remove_missing` is set and some existing name is neither imported nor protected |
| Merge.LegacyIgnoresRemoveMissing | collection/CollectionAbstract.py:350-360 | the legacy merge's collection and reorder map do not depend on `remove_missing`: they equal the current merge's with removal on |
| Merge.LegacyNames | collection/CollectionAbstract.py:350-367 | the legacy merge keeps an existing name exactly when it is imported or its index is in `used_elsets`, and adds every imported name |
| Merge.LegacyRemovedAnyCounterexample | collection/CollectionAbstract.py:401 | two existing objects sharing a name make the legacy flag report a removal although every name survives, while the current flag reports none |
| Designs.NamePrefix | collection/designs.py:874-876 | the prefix is the upper-cased leading run of letters and underscores: every character of the run qualifies and the next one does not |
| Designs.NameNumbers | collection/designs.py:878-881 | the numbers are `[inf]` exactly when the name has no digit, and otherwise the values of every `\d+(\.\d+)?` token in order |
| Designs.DesignSuffix | collection/designs.py:883-885 | the suffix is "" for a name without a digit, and otherwise the whole trailing run of letters |
| Designs.EmptyNameAsGeneral | collection/designs.py:871-872 | the empty-name branch `("", [inf], "")` agrees with the general rule |
| Designs.TwoNumberName | collection/designs.py:859-887 | prefix run, digits, a digit-free separator, digits and letters split into upper prefix, both numbers and the letters |
| Designs.OneNumberName | collection/designs.py:859-887 | prefix run, digits and letters split into upper prefix, the number and the letters |
| Designs.DesignNameExample | collection/designs.py:865 | the docstring's `B15/20A` gives `("B", [15, 20], "A")` |
| Designs.RectNameExample | collection/designs.py:867 | `RECT_200X400` gives `("RECT_", [200, 400], "")`: the code keeps the underscore the docstring drops |
| Designs.DesignDims | collection/designs.py:898-925 | the per-type dimensions are `getattr(o, attr, inf)` of that type's attributes, and none for an unlisted type |
| Designs.NameKey | collection/designs.py:889-892 | the name key is the prefix, every number, then the suffix |
| Designs.DesignKey | collection/designs.py:930-949 | the key starts with the type's position in `type_sort_rules`; an unlisted type gives `(len, inf)`, a listed one the name key then the dimensions |
| Designs.DesignTypeOrder | collection/designs.py:937-947 | a design of a type listed earlier sorts first, and Python decides it without raising |
| Designs.DesignKeyTypeError | collection/designs.py:889-947 | two designs of one listed type with the same prefix, where the first name's numbers begin the second's and are fewer, make Python's comparison raise TypeError |
| Designs.DesignKeyTypeErrorExample | collection/designs.py:889-947 | two designs named `B15` and `B15/20` of one listed type make the sort raise TypeError |
| Designs.DesignOrderTotal | collection/designs.py:930-949 | the model's design order is total, agrees with Python wherever Python answers, and sorting by it gives a stable permutation in key order |
| Sections.TypeNamed | collection/sections.py:60-69 | the five type words are recognised, each names exactly its type, and no other word names a type |
| Sections.ParseSectionType | collection/sections.py:35-71 | the type is the upper-cased third word; IndexError for a line with fewer than three words and ValueError exactly when the word names no type |
| Sections.ParseSectionTypeIgnoresCase | collection/sections.py:38 | two lines whose third words agree up to case declare the same type |
| Sections.MappedTypeAgreesWithTable | collection/sections.py:358-366 | `TYPE_MAP` sends each property class to the section type the elset table pairs with it |
| Sections.CreateShape | collection/sections.py:395-406 | a user section needs no name pattern; every other type fails only with ValueError |
| Sections.CreateShapeType | collection/sections.py:395-482 | a shape the factory builds has the type it was asked for |
| Sections.ThicknessOf | collection/sections.py:411-470 | slab, wall and circle sections take the one number of a thickness-shaped name, and a bad name is ValueError |
| Sections.RectOf | collection/sections.py:424-438 | a rectangle section comes from a rect-shaped name, and a bad name is ValueError |
| Sections.TeeOf | collection/sections.py:440-457 | a tee section needs a tee-shaped name, and a bad name is ValueError |
| Sections.CreateSection | collection/sections.py:379-406 | KeyError exactly when the key is not in the map or its index has no property; otherwise the section has the map's index, the property's name, the mapped type and that type's `type_index` |
| Sections.CreateRectSection | collection/sections.py:424-438 | a beam or column property with a well-formed rect name becomes section type 6 with exactly that name's two numbers |
| Sections.CreateThicknessSection | collection/sections.py:411-422 | a slab or wall property with a letters-number-letters name becomes section type 3 of that number |
| Sections.CreateTeeSection | collection/sections.py:440-457 | a tee name with four numbers becomes section type 12 with those numbers in order; with any other count, unpacking raises ValueError |
| Sections.CreateAll | collection/sections.py:487-492 | it succeeds exactly when every key succeeds, giving one section per key in key order; otherwise it fails with the first failing key's error |
| Sections.CreateAllIndices | collection/sections.py:487-492 | a map that gives distinct keys distinct indices yields sections with distinct indices |
| Sections.SectionNameParts | collection/sections.py:602-615 | the parts are one string (the prefix) followed by at least one number |
| Sections.SectionNamePartsGeneral | collection/sections.py:603-604 | the empty-name branch agrees with the general rule |
| Sections.SectionPartsAreDesignParts | collection/sections.py:602-615 | section name parts are the design name parts without the suffix |
| Sections.SectionPriority | collection/sections.py:643-649 | the priority is a type's position in the rule list, and 3 exactly for the types without a rule |
| Sections.SectionKey | collection/sections.py:642-654 | the key starts with the priority; an unruled type gives `(3, inf)` |
| Sections.SectionKeyShape | collection/sections.py:620-654 | the only string in a section key is at position 1, and only for a ruled type |
| Sections.SectionKeysNeverRaise | collection/sections.py:620-654 | comparing any two section keys never raises TypeError and agrees with the model's total order |
| Sections.SectionTypeOrder | collection/sections.py:620-649 | thickness sorts before rectangle, rectangle before circle, and circle before the unruled types |
| Splitters.SplitLetters | collection/sections.py:515 | the leading letter run and what follows it, which does not start with a letter |
| Splitters.SplitLettersConcat | collection/sections.py:515 | letters followed by a non-letter split back at that point |
| Splitters.SplitNumber | collection/sections.py:515 | the longest `\d+\.?\d*` at the start of the text, empty exactly when the text does not start with a digit |
| Splitters.SplitNumberConcat | collection/sections.py:515 | a number followed by a non-digit, non-dot character splits back at that point |
| Splitters.ThicknessMatch | collection/sections.py:515-517 | a match is a letters-number-letters decomposition of the whole name |
| Splitters.ThicknessMatchExact | collection/sections.py:515 | the pattern's only decomposition of such a name is found |
| Splitters.SplitThickness | collection/sections.py:498-520 | on success the prefix and suffix belong to a thickness decomposition of the name, and the value is its number; a failure is ValueError |
| Splitters.SplitThicknessExact | collection/sections.py:498-520 | every thickness-shaped name splits back into its prefix, number and suffix |
| Splitters.SplitThicknessRejects | collection/sections.py:516-517 | a name that is rejected has no thickness decomposition |
| Splitters.SplitIsotropic | collection/materials.py:266-271 | on success the result is the prefix and number of a letters-number name; a failure is ValueError |
| Splitters.SplitIsotropicExact | collection/materials.py:266-271 | every letters-number name splits back into its parts |
| Splitters.SplitIsotropicRejects | collection/materials.py:268-269 | a name that is rejected has no letters-number decomposition |
| Splitters.RectMatch | collection/sections.py:536-541 | a match is a rect decomposition of the whole name |
| Splitters.RectMatchExact | collection/sections.py:536-539 | the pattern's only decomposition of a rect-shaped name is found |
| Splitters.SplitRect | collection/sections.py:522-544 | on success the result comes from a rect decomposition of the name; a failure is ValueError |
| Splitters.SplitRectExact | collection/sections.py:522-544 | every rect-shaped name splits back into prefix, both numbers and suffix |
| Splitters.SplitRectRejects | collection/sections.py:540-541 | a name that is rejected has no rect decomposition |
| Splitters.ScanBlock | collection/sections.py:570-573 | the numeric block is numbers joined by separators, and what follows cannot continue it |
| Splitters.ScanBlockExact | collection/sections.py:570-573 | the block scanner recovers every interleaving of numbers and separators followed by text that cannot continue it |
| Splitters.TeeMatch | collection/sections.py:567-581 | a match is a tee decomposition of the whole name with at least two numbers |
| Splitters.TeeMatchExact | collection/sections.py:567-578 | the pattern's only decomposition of a tee-shaped name is found |
| Splitters.SplitAtSeparatorsConcat | collection/sections.py:586 | splitting at separators cuts at the first separator and goes on with the rest |
| Splitters.SplitInterleave | collection/sections.py:586 | splitting a numeric block at its separators gives back its numbers |
| Splitters.SplitTee | collection/sections.py:546-588 | it succeeds exactly when the tee pattern matches, giving the prefix, the values of the block's pieces and the suffix; a failure is ValueError |
| Splitters.SplitTeeExact | collection/sections.py:546-588 | every tee-shaped name splits back into its prefix, the values of its numbers in order, and its suffix |
| Splitters.SplitTeeRejects | collection/sections.py:580-581 | a name that is rejected has no tee decomposition |
| Materials.ParseMaterialType | collection/materials.py:27-39 | IndexError exactly when the main line has fewer than three words; a recognised upper-cased third word gives its kind, and any other word skips the line |
| Materials.InferType | collection/materials.py:257-263 | spring exactly when the lower-cased name starts with "spr "; otherwise isotropic exactly when it starts with "fc"; otherwise KeyError |
| Materials.CreateMaterial | collection/materials.py:192-254 | a name not in the map is KeyError; a built material carries the map's index, the name, the inferred kind and that kind's `type_index`; `fc1` is ten times the split number; a spring's stiffness is `float` of the last '-' field |
| Materials.IsotropicMaterial | collection/materials.py:202-235 | the isotropic branch succeeds exactly when the name splits, giving type 1 and ten times the number as `fc1` |
| Materials.SpringMaterial | collection/materials.py:237-251 | the spring branch gives type 3 and the `float` of the last '-' field as stiffness |
| Materials.CreateIsotropicExact | collection/materials.py:192-271 | a mapped name of letters starting "fc" in any case, followed by a number, becomes an isotropic material of ten times that number |
| Materials.IsotropicInferred | collection/materials.py:257-262 | a name whose lower-cased form starts with "fc" is inferred to be isotropic |
| Materials.CreateSpringExact | collection/materials.py:237-260 | a mapped name starting "spr " in any case and ending in '-' and a number becomes a spring of that stiffness |
| Materials.SpringInferred | collection/materials.py:257-260 | a name whose lower-cased form starts with "spr " is inferred to be a spring |
| Materials.SpringLastField | collection/materials.py:238 | the last '-' field of a name ending in '-' and a number is that number |
| Materials.CreateAll | collection/materials.py:273-278 | it succeeds exactly when every name succeeds, giving one material per name in map order; otherwise it fails with the first failing name's error |
| Materials.MaterialKey | collection/materials.py:293-305 | a two-position key: the kind's position, then `fc1` for isotropic or the lower-cased name for a spring |
| Materials.MaterialOrder | collection/materials.py:280-305 | comparing material keys never raises; isotropic materials come first by strength, then springs by lower-cased name |
| Elsets.DesignPos | collection/elsets.py:59-62 | the position of the first elset whose design has the name, and none exactly when no elset's design has it |
| Elsets.DesignIndexPos | collection/elsets.py:44-50 | the position of the first elset whose design has the index, and none exactly when no design has it |
| Elsets.GetByDesign | collection/elsets.py:37-64 | a name or design query finds nothing exactly when no elset's design has that name, and an index query exactly when no design has that index; an answer is an elset of the collection with the wanted design name |
| Elsets.GetByNameFirst | collection/elsets.py:52-62 | a name query returns the first elset carrying that design name |
| Elsets.GetByIndexFirst | collection/elsets.py:42-62 | an index query answers with the first elset whose design shares the name of the first design carrying the index, and that elset never comes after the index match |
| Elsets.NextId | collection/elsets.py:353-356 | a new key receives `len(mapping) + 1`; known keys keep their ids, and the key is now mapped to the id returned |
| Elsets.NextIdDense | collection/elsets.py:353-356 | if the ids are distinct and exactly 1..n, they stay so after the call |
| Elsets.AssignIdsDense | collection/elsets.py:250-260 | however the keys repeat, the ids of the built map are distinct and exactly 1..n |
| Elsets.AssignIdsStable | collection/elsets.py:250-260 | a key keeps the id it was first given, whatever keys come later |
| Elsets.SectionFor | collection/elsets.py:617-620 | the imported section with the design's name, else the existing one; none exactly when neither side has the name |
| Elsets.SectionsByDesignOrder | collection/elsets.py:606-629 | it succeeds exactly when every design has a section on one side, giving one per design in design order; otherwise KeyError |
| Elsets.ChosenElset | collection/elsets.py:651-654 | the imported elset for the design, else the existing one; none exactly when neither side has one |
| Elsets.RebuildOne | collection/elsets.py:643-672 | a step succeeds exactly when the design has a section, a chosen elset, and a merged material of that elset's material name; the elset then takes the given index, the design, the chosen texture, that material and the renumbered section; otherwise KeyError |
| Elsets.AllSteps | collection/elsets.py:640-677 | the loop completes exactly when every step does, and the results are the steps' results in order |
| Elsets.RebuildElsetsOk | collection/elsets.py:633-677 | the rebuild succeeds exactly when the step for every design, numbered from 1, succeeds |
| Elsets.RebuildElsetsAt | collection/elsets.py:640-675 | the k-th rebuilt elset and section are those of design k, numbered k+1 |
| Elsets.MergeElsets | collection/elsets.py:540-601 | the designs and their reorder map come from the design merge with `remove_missing=False`, and the materials from the material merge; every failure it models is a KeyError of the rebuild (the TypeError of the design sort is left out) |
| Elsets.MergeElsetsFrom | collection/elsets.py:578-601 | there are as many elsets and sections as merged designs |
| Elsets.RebuildFindsOrderedSection | collection/elsets.py:643-646 | once every design has a section in design order, the rebuild finds the k-th section for the k-th design, since merged design names are distinct |
| Elsets.MergeElsetsSource | collection/elsets.py:540-601 | the k-th merged elset has index k+1 and the k-th merged design, which also has index k+1; its texture comes from the imported elset for that design, else the existing one, and its material is the merged one of the same name |
| Elsets.MergeElsetsSection | collection/elsets.py:606-649 | the k-th elset's section is the k-th returned section: the imported section named like the k-th design, else the existing one, renumbered to k+1 |
| Elsets.MergeElsetsDesignNames | collection/elsets.py:568-575 | the merged designs carry exactly the design names of both sides, each once |
| Elsets.ChosenAlwaysFound | collection/elsets.py:651-658 | every merged design comes from some elset, so the "No elset found" KeyError cannot happen |
| SectionProps.KindOf | compact/elset/section_properties.py:47-55 | only an isotropic material leads to a property class |
| SectionProps.KindOfInverse | compact/elset/section_properties.py:47-55 | the table pairs each of its seven triples with one class and every class with one triple |
| SectionProps.ClassNameInjective | compact/elset/section_properties.py:30-35 | different classes have different class names, so grouping by name is grouping by class |
| SectionProps.TypeName | compact/elset/section_properties.py:80-84 | a stored object has a `type_name` exactly when its attributes hold a text `type_name` |
| SectionProps.Triple | compact/elset/section_properties.py:76-84 | the key exists exactly when all three objects were found and carry a `type_name`, and is their upper-cased type names |
| SectionProps.FromElset | compact/elset/section_properties.py:72-90 | RuntimeError exactly when a collection is missing; a built property carries the elset's index, the section's name and the material's name, and its class's triple is the looked-up key; ValueError only for a key the table lacks |
| SectionProps.Convert | compact/elset/section_properties.py:97-103 | at most one property per index: the converted elset, or nothing when the conversion raises |
| SectionProps.CollectMembers | compact/elset/section_properties.py:96-103 | the collected properties are exactly what the visited elsets convert to |
| SectionProps.FromElsets | compact/elset/section_properties.py:92-105 | it fails exactly when a collection is missing, and then with RuntimeError |
| SectionProps.FromElsetsMembers | compact/elset/section_properties.py:92-105 | a property is returned exactly when some stored elset converts to it |
| SectionProps.CollectIncreasing | compact/elset/section_properties.py:96-103 | visiting elsets by increasing index yields properties with strictly increasing elset indices, all among those visited |
| SectionProps.FromElsetsAscending | compact/elset/section_properties.py:92-105 | for present collections the result succeeds and its properties carry strictly increasing elset indices |
| SectionProps.OfClass | compact/elset/section_properties.py:32-35 | a group holds exactly the properties of its class |
| SectionProps.ClassOrder | compact/elset/section_properties.py:32-36 | the group names are distinct and keep the order in which they were first seen |
| SectionProps.ClassOrderMembers | compact/elset/section_properties.py:32-36 | a name is a group name exactly when some property has that class |
| SectionProps.SplitByClass | compact/elset/section_properties.py:21-36 | the groups have distinct names, and each holds its class's properties in input order |
| SectionProps.SplitByClassCovers | compact/elset/section_properties.py:21-36 | every group is non-empty, and every property's class has a group |
| SectionProps.SplitByClassPartition | compact/elset/section_properties.py:21-36 | every property lands in exactly one group: the one of its class |
| SectionProps.DedupFrom | compact/elset/section_properties.py:143-152 | survivors come from the input, avoid the names already seen, and have distinct names |
| SectionProps.DedupFromNames | compact/elset/section_properties.py:143-152 | no name outside those already seen is lost |
| SectionProps.Dedup | compact/elset/section_properties.py:143-161 | the kept properties come from the input, have distinct names, and cover every input name |
| SectionProps.DedupKeepsFirst | compact/elset/section_properties.py:147-152 | the first property with each name is kept |
| Layouts.NewLayout | layout/_layout_abstract.py:23-34 | a new layout keeps its index and items, and its item dictionary is consistent with its list |
| Layouts.NewLayoutGet | layout/_layout_abstract.py:30-46 | in a new layout `get_item` answers None exactly when no item has the index, and otherwise returns one of the items with that index |
| Layouts.GetItem | layout/_layout_abstract.py:45-46 | `get_item` answers exactly for the indexed item indices |
| Layouts.AddItem | layout/_layout_abstract.py:39-43 | `add_item` appends the item and makes `get_item` return it; the layout index and every other lookup are unchanged |
| Layouts.AddLayout | layout/_layout_abstract.py:63-67 | ValueError exactly when the layout index is taken; otherwise the layout is appended and indexed |
| Layouts.FromLayouts | layout/_layout_abstract.py:55-61 | building from a list succeeds exactly when the layout indices are distinct, keeps the list, and otherwise raises ValueError |
| Layouts.FromLayoutsIndexed | layout/_layout_abstract.py:55-67 | a collection built from a list holds every layout in its dictionary under its own index, and no other key |
| Layouts.GetLayout | layout/_layout_abstract.py:69-70 | `get` raises KeyError exactly for an index not in the dictionary |
| Layouts.GetLayoutFromList | layout/_layout_abstract.py:55-70 | in a collection built from a list, `get` finds every listed layout by its index and raises KeyError for any other index |
| Layouts.WalkItemsConcat | layout/_layout_abstract.py:74-77 | walking a list of layouts walks each part in turn |
| Layouts.WalkItemsAt | layout/_layout_abstract.py:74-77 | the walk meets item j of layout k after all items of the layouts before it |
| Layouts.WalkItemsFrom | layout/_layout_abstract.py:74-77 | every step of the walk is an item of one of the layouts |
| Layouts.RemapItem | layout/_layout_abstract.py:83-85 | an item fails exactly when its target is missing (AttributeError) or the target's index is not in the map (KeyError); otherwise only the target changes, to `collection.get(new)` |
| Layouts.RemapLayout | layout/_layout_abstract.py:82-85 | a layout remaps exactly when each of its items does, keeping its index and item order; otherwise it fails with its first failing item's error |
| Layouts.Remap | layout/_layout_abstract.py:79-85 | `remap` succeeds exactly when every layout remaps, layout by layout; otherwise it fails with the first failing layout's error |
| Layouts.RemapOk | layout/_layout_abstract.py:79-85 | `remap` succeeds exactly when every item of every layout rebinds |
| Layouts.RemapWalked | layout/_layout_abstract.py:74-85 | after a successful `remap` the walk is the old walk with each item rebound |
| Layouts.RemapFirstError | layout/_layout_abstract.py:79-85 | the error `remap` raises is that of the first item, in walking order, that raises |
| Layouts.StripAll | layout/_layout_abstract.py:135-136 | every line is stripped, in order |
| Layouts.ParseLayout | layout/_layout_abstract.py:140-154 | a layout parses exactly when its header and every item line parse; it takes the header's index and the parsed items in order |
| Layouts.ParseLayouts | layout/_layout_abstract.py:122-159 | a missing block gives an empty collection; a parsed collection indexes every layout, and the layout indices are distinct |
| Layouts.ParseFramed | layout/_layout_abstract.py:130-159 | the layouts parsed from the stripped lines are indexed and have distinct indices |
| Layouts.ParseLayoutsShape | layout/_layout_abstract.py:122-159 | a parse gives one layout per header line, numbered by that header, and walks the parsed item lines after the first header; the lines before it are dropped |
| Layouts.NoHeaderNoLayouts | layout/_layout_abstract.py:130-159 | a block without a header line parses to no layouts, whatever its other lines hold |
| Framing.SelectConcat | layout/_layout_abstract.py:135-154 | the lines of one kind in a concatenation are those of each part in turn |
| Framing.StepEffect | layout/_layout_abstract.py:140-154 | a header line adds one layout and nothing else; an item line goes to the open layout, or to the dropped lead when none is open; a skipped line changes nothing |
| Framing.FrameFromHeads | layout/_layout_abstract.py:135-157 | the loop opens one layout per header line, in order |
| Framing.FrameFromItems | layout/_layout_abstract.py:135-157 | the lead and the layouts' item lines together are the item lines, in order |
| Framing.FrameFromLead | layout/_layout_abstract.py:140-154 | once a layout is open the lead no longer changes, and while no header has been met no layout opens |
| Framing.FrameAllLead | layout/_layout_abstract.py:140-154 | the lead is the item lines before the first header, and the first layout starts at that header |
| Framing.NoHeadsNoFrames | layout/_layout_abstract.py:140-144 | a stretch without a header line selects no header |
| FloorLayouts.FloorHeader | layout/beam_layouts.py:58-60 | reading a header line fails only with IndexError (a missing field) or ValueError (a malformed number) |
| FloorLayouts.FloorHeaderSeparators | layout/beam_layouts.py:58-60 | a header line reads only when it has a '#', a ',' and an '='; without '#' it raises IndexError |
| FloorLayouts.HeaderRoundTrip | layout/beam_layouts.py:58-119 | the header line `format_line` writes reads back as the layout's index and member count |
| FloorLayouts.FieldsRead | layout/beam_layouts.py:58-60 | in "a#b,c=d" the parse reads the numbers that b and d denote |
| FloorLayouts.HeaderRecognised | layout/beam_layouts.py:50-119 | a written header line is recognised as a header line |
| FloorLayouts.ParseMembers | layout/beam_layouts.py:67-70 | members parse exactly when every line does; they come out in order and are numbered by the shared counter; otherwise the first failing line decides the error |
| FloorLayouts.NumberedConcat | layout/beam_layouts.py:39-70 | the counter is not reset between layouts, so numbering runs on from one list of lines into the next |
| FloorLayouts.ParseFloor | layout/beam_layouts.py:58-70 | a layout carries the number and member count of its header, and its member lines parsed and numbered in order |
| FloorLayouts.ParseFloors | layout/beam_layouts.py:44-75 | one layout per framed group |
| FloorLayouts.ParseFloorsHeads | layout/beam_layouts.py:50-65 | layout k carries the number and member count its header line gives |
| FloorLayouts.ParseFloorsMembers | layout/beam_layouts.py:39-75 | the layouts' members are the groups' member lines, parsed in order and numbered on |
| FloorLayouts.JoinLead | layout/beam_layouts.py:42-55 | members met before the first header go in front of the first layout's members, since the list is only reset once a layout is open; layout numbers and counts are unchanged |
| FloorLayouts.FloorParse | layout/beam_layouts.py:30-77 | a missing block is ValueError; the layouts form an indexed collection |
| FloorLayouts.FloorParseShape | layout/column_layouts.py:30-77 | one layout per header line, in order, with the number and count that header gives; when there is a header, every member line of the block, in order, is a member of some layout, numbered 1, 2, ... across the whole block |
| FloorLayouts.FloorParseNoHeader | layout/beam_layouts.py:44-77 | a block without a header line yields no layouts, though its member lines are still parsed |
| FloorLayouts.RebindMember | layout/beam_layouts.py:90-103 | a member fails exactly when its elset cannot be rebound, and otherwise changes only its elset |
| FloorLayouts.RemapFloor | layout/beam_layouts.py:89-103 | a layout remaps exactly when each of its members does, and keeps its number, count and member order; the error is KeyError |
| FloorLayouts.RemapElsets | layout/column_layouts.py:80-103 | every member of every layout is rebound, and the error is the KeyError of the first member that fails |
| FloorLayouts.RemapElsetsRebinds | layout/beam_layouts.py:88-103 | after a successful rebind each member refers to a merged elset carrying the mapped index of its old elset, and keeps its index and other fields |
| Rebind.RebindElset | collection/slabs.py:103-119 | KeyError exactly when the old elset index is unmapped or no merged elset has the mapped index; otherwise the merged elset `new_elsets.get(reorder_map[old])` |
| Rebind.RebindElsetMapped | collection/slabs.py:110-119 | over a consistent merged collection, rebinding fails exactly when no merged elset carries the mapped index, and otherwise gives a merged elset with that index |
| Slabs.IntAt | collection/slabs.py:70-73 | `int(l0[k])` raises IndexError exactly past the last token, and otherwise can only raise ValueError |
| Slabs.FloatAt | collection/slabs.py:74-78 | `float(l0[k])` raises IndexError exactly past the last token, and otherwise can only raise ValueError |
| Slabs.ParseSlabTokens | collection/slabs.py:66-95 | fewer than nine tokens always fail; a parsed slab carries exactly the values of its nine fields and the looked-up elset |
| Slabs.ParseSlab | collection/slabs.py:54-63 | a slab line fails only with IndexError or ValueError |
| Slabs.ParseSlabFields | collection/slabs.py:66-95 | tokens that all read cleanly give the slab they describe, and fail with ValueError exactly when the elset index is unknown |
| Slabs.NonBlank | collection/slabs.py:43-46 | only lines with text after `strip()` are kept, in order |
| Slabs.NonBlankKeeps | collection/slabs.py:43-46 | every line with text survives the filter |
| Slabs.SlabsFromModel | collection/slabs.py:33-51 | a missing FLOORSLAB block is ValueError; the slabs form an indexed collection |
| Slabs.SlabsFromModelOk | collection/slabs.py:43-51 | reading succeeds exactly when every non-blank line parses |
| Slabs.SlabsFromModelLines | collection/slabs.py:43-51 | a successful read holds one slab per non-blank line, in order, each the slab its line describes |
| Slabs.RebindSlab | collection/slabs.py:102-119 | a slab fails exactly when its elset cannot be rebound, and otherwise changes only its elset |
| Slabs.RemapSlabs | collection/slabs.py:97-119 | it succeeds exactly when every slab's elset rebinds, with the first failing slab giving KeyError; each slab keeps its index and every field but the elset, which becomes `new_elsets.get(reorder_map[old])` |
| CompactBeams.IndexOf | compact/layout/beam_layout_compact.py:26-28 | reading `.index` of a missing object is AttributeError, and otherwise gives its index |
| CompactBeams.CompactItem | compact/layout/beam_layout_compact.py:24-29 | an item compacts exactly when the beam's nodes and elset are all present; it carries the layout index and their three indices, and otherwise raises AttributeError |
| CompactBeams.FromLayout | compact/layout/beam_layout_compact.py:22-36 | compaction succeeds exactly when every beam resolves, keeps the layout index, and gives one item per beam; otherwise AttributeError |
| CompactBeams.FromLayoutItems | compact/layout/beam_layout_compact.py:23-35 | the k-th compact item belongs to the layout and carries the k-th beam's start-node, end-node and elset indices |
| CompactBeams.Expand | compact/layout/beam_layout_compact.py:42-50 | an expanded beam's nodes and elset are the `get` lookups of the item's indices |
| CompactBeams.ExpandFrom | compact/layout/beam_layout_compact.py:39-52 | the k-th beam gets index `idx + k` and the expansion of the k-th item |
| CompactBeams.ToFull | compact/layout/beam_layout_compact.py:38-57 | the full layout keeps the index, and its beams are numbered consecutively from `start_index` in item order, each the expansion of its item |
| CompactBeams.ToFullFromLayout | compact/layout/beam_layout_compact.py:22-57 | expanding a compact layout whose references all resolve, then compacting the result, gives the compact layout back |
| CompactBeams.AddCompact | compact/layout/_layout_compact.py:43-45 | `add` appends the layout and indexes it under its index, overwriting any earlier entry without raising |
| CompactBeams.FromFullLayouts | compact/layout/beam_layout_compact.py:61-67 | it succeeds exactly when every layout compacts, giving one compact layout per full layout in order; otherwise AttributeError |
| CompactBeams.ExpandAll | compact/layout/beam_layout_compact.py:71-76 | every compact layout is expanded with numbering restarted at 1 |
| CompactBeams.AllToFull | compact/layout/beam_layout_compact.py:69-78 | the collection is built exactly when the layout indices are distinct, and otherwise `add` raises ValueError; it holds the expanded layouts in order, each indexed |
| CompactBeams.AllToFullNumbering | compact/layout/beam_layout_compact.py:72-76 | each layout keeps its index, and its beams are numbered 1, 2, ... whichever layout they belong to |
| Nodes.NearAny | collection/Nodes.py:172-176 | `node_exists` holds exactly when some base node is within the tolerance on all three axes |
| Nodes.MinIndex | collection/Nodes.py:102-103 | `min` by `(x, y, z)` picks a point no other point is below, and the first such |
| Nodes.Line | collection/Nodes.py:183 | the innermost loop visits exactly the `iz < nz` for fixed `ix`, `iy`, in increasing order |
| Nodes.Plane | collection/Nodes.py:182-183 | the two inner loops visit exactly the `iy < ny`, `iz < nz` for fixed `ix`, in loop order |
| Nodes.Grid | collection/Nodes.py:181-183 | the three loops visit exactly the offsets with `ix < nx`, `iy < ny`, `iz < nz`, in loop order |
| Nodes.Offsets | collection/Nodes.py:181-185 | the offsets visited are the grid without the zero offset, in loop order, and none when any count is zero or negative |
| Nodes.CandidatesAreCopies | collection/Nodes.py:180-189 | a candidate is exactly a selected node moved by `d·i` along the axes for some visited offset |
| Nodes.FarMembers | collection/Nodes.py:191-192 | the kept candidates are exactly those not within the tolerance of any base node |
| Nodes.PlaceIsNumberedFar | collection/Nodes.py:180-201 | the loop with its skip and counter is the same as keeping the far candidates and then numbering them |
| Nodes.MaxIndex | collection/Nodes.py:170 | `max(..., default=0)` bounds every base index, is one of them, and is 0 for no base nodes |
| Nodes.NewNodes | collection/Nodes.py:170-201 | the new nodes are the far candidates, numbered from one past the largest base index |
| Nodes.NewNodesSound | collection/Nodes.py:170-201 | each new node has index max+1+i, above every base index, is not near any base node, and is a copy of a selected node along an offset |
| Nodes.NewNodesComplete | collection/Nodes.py:180-201 | every copy of a selected node along a visited offset that is not near a base node is among the new nodes |
| Nodes.Replicate | collection/Nodes.py:164-207 | the result is the base nodes in their order followed by the new nodes, and is indexed consistently |
| Nodes.ReplicateZeroCount | collection/Nodes.py:181-185 | with a zero or negative count along any axis nothing is added |
| Nodes.ReplicateComplete | collection/Nodes.py:180-207 | every grid copy of a selected node that is not near a base node appears after the base nodes |
| NodeQuery.Min | collection/Nodes.py:88 | `min` of the coordinates is one of them and no larger than any |
| NodeQuery.Max | collection/Nodes.py:88-89 | `max` of the coordinates is one of them and no smaller than any |
| NodeQuery.GetBounds | collection/Nodes.py:83-90 | None exactly for an empty collection; otherwise every node lies inside the bounds in plan and each side touches some node |
| NodeQuery.LexMinIndex | collection/Nodes.py:102-103 | `min` by `(x, y, z)` picks a node no other node is below, the first of those |
| NodeQuery.FirstNear | collection/Nodes.py:109-116 | None exactly when no node is near the target; otherwise the first near node in collection order |
| NodeQuery.GetByOffset | collection/Nodes.py:99-116 | ValueError exactly for no origin on an empty collection; otherwise the first node within 1e-6 of origin plus offset, the origin defaulting to the smallest node |
| NodeQuery.GetByOffsetZero | collection/Nodes.py:99-116 | a zero offset without an origin always finds a node |
| NodeQuery.OnSegmentBetween | collection/Nodes.py:119-127 | every point between the two ends of a segment, ends included, is on it |
| NodeQuery.Crossing | collection/Nodes.py:134-142 | ZeroDivisionError exactly when the edge straddles the ray and its height difference plus 1e-12 is zero; a crossing needs the edge to straddle the ray |
| NodeQuery.Walk | collection/Nodes.py:134-144 | the loop fails only with ZeroDivisionError |
| NodeQuery.BoundaryIsInside | collection/Nodes.py:137-139 | a point on an edge is inside, whatever the parity, unless an earlier edge raised |
| NodeQuery.WalkIsParity | collection/Nodes.py:133-144 | off the boundary and without a raising edge, the answer is the parity of the number of crossed edges (even-odd rule) |
| NodeQuery.WalkStep | collection/Nodes.py:140-142 | a clean edge flips the parity exactly when the ray crosses it |
| NodeQuery.GetByIndicesAsWritten | collection/Nodes.py:93-96 | any non-empty index list raises AttributeError; an empty one gives an empty collection |
| NodeQuery.SelectByPolygonAsWritten | collection/Nodes.py:147-159 | fails for every non-empty boundary and selects nothing for an empty one |
| NodeQuery.GetByIndices | collection/Nodes.py:93-96 | the nodes returned are exactly the ones the indices name that the collection holds |
| NodeQuery.GetByIndicesAllPresent | collection/Nodes.py:93-96 | with every index present, node k is the node of index k: one node per index, in index order |
| NodeQuery.GetByIndicesConcat | collection/Nodes.py:94 | the lookup goes index by index in index order: a held index contributes its node, repeats included, any other nothing |
| NodeQuery.InsideNodes | collection/Nodes.py:154-158 | succeeds exactly when every test succeeds; then holds exactly the nodes inside the polygon; fails only with ZeroDivisionError |
| NodeQuery.InsideNodesOne | collection/Nodes.py:154-157 | one node is kept exactly when its test answers true, dropped when it answers false, and its test's error is the result's |
| NodeQuery.InsideNodesConcat | collection/Nodes.py:154-157 | the comprehension is a filter that keeps collection order: a list succeeds exactly when both parts do, and its kept nodes are the first part's followed by the second's |
| NodeQuery.SelectByPolygon | collection/Nodes.py:147-159 | fewer than three corners select nothing; otherwise it succeeds exactly when every node's test does, and holds the nodes inside the polygon of the looked-up corners, boundary included, in collection order, as a consistent collection |
| NodeQuery.SelectByPolygonDiscrepancy | collection/Nodes.py:93-96 | on every boundary of three present indices, the code as written raises where the intended selection answers |
| Geometry.Round6 | util/geometry.py:6-7 | `round(x, 6)` moves a coordinate by at most half of 10⁻⁶ |
| Geometry.Reverse | util/geometry.py:22 | the reversed corners keep the first and third corner and swap the second and fourth |
| Geometry.ReversePermutes | util/geometry.py:22 | reversing keeps the same corners |
| Geometry.ReverseArea | util/geometry.py:10-22 | walking the corners the other way negates the orientation sum |
| Geometry.ReverseReverse | util/geometry.py:22 | reversing twice gives the corners back |
| Geometry.EnsureCcw | util/geometry.py:20-22 | unchanged when already counter-clockwise, otherwise reversed; the result is counter-clockwise unless the sum is zero |
| Geometry.Rotate | util/geometry.py:35 | corner k of the result is corner (start + k) mod 4 |
| Geometry.RotatePermutes | util/geometry.py:35 | a rotation keeps the same corners |
| Geometry.RotateArea | util/geometry.py:10-17 | the orientation sum does not depend on the starting corner |
| Geometry.RotateRotate | util/geometry.py:35 | two rotations compose into one by the sum of the starts |
| Geometry.Canonicalize | util/geometry.py:25-35 | a rotation of the counter-clockwise corners whose first corner has no smaller key than any other |
| Geometry.CanonicalizePermutes | util/geometry.py:25-35 | the canonical corners are the input's corners |
| Geometry.EnsureCcwRotate | util/geometry.py:20-35 | orienting a rotated element gives a rotation of the oriented one |
| Geometry.MinIndexRotate | util/geometry.py:34 | with distinct keys, the smallest key of rotated keys is where the rotation moved it |
| Geometry.FromMinRotate | util/geometry.py:34-35 | with distinct keys, starting from the smallest key forgets the starting corner |
| Geometry.CanonicalizeRotationFree | util/geometry.py:25-35 | with distinct corner keys, the result does not depend on the starting corner |
| Geometry.CanonicalizeOrientationFree | util/geometry.py:25-35 | with a non-zero orientation sum, the result does not depend on the walking direction |
| Diaphragms.ParseDiaphragm | collection/Diaphragms.py:17-28 | IndexError exactly for a blank tower line, otherwise ValueError or the diaphragm whose index is the tower line's first token read as an integer |
| Diaphragms.FormatDiaphragm | collection/Diaphragms.py:48-52 | two lines, the tower line and the diaphragm line |
| Diaphragms.FormatParse | collection/Diaphragms.py:18-52 | reading back the two written lines gives the diaphragm, when both data lines are single-spaced words |
| Diaphragms.PairsAt | collection/Diaphragms.py:37-42 | there are `len // 2` pairs, the k-th being lines 2k and 2k+1 |
| Diaphragms.TrailingLineIgnored | collection/Diaphragms.py:38 | a final unpaired line is skipped |
| Diaphragms.DiaphragmsFromModel | collection/Diaphragms.py:30-44 | AttributeError when the block is absent; errors are only those of the block lookup and `parse_line`; a success is a consistent collection |
| Diaphragms.DiaphragmsFromModelLines | collection/Diaphragms.py:37-44 | a successful read holds `len // 2` diaphragms, the k-th read from lines 2k and 2k+1 |
| Diaphragms.PairsFlatten | collection/Diaphragms.py:37-42 | pairing the lines of laid-out pairs gives the pairs back |
| Diaphragms.FormatAllRead | collection/Diaphragms.py:30-52 | writing diaphragms with canonical data and reading the lines back gives the same collection |
| Diaphragms.Placeholder | collection/Diaphragms.py:72-78 | the created diaphragm carries the requested index; `match_node_indices` writes three zero fields per line, the legacy `extend` four |
| Diaphragms.Matched | collection/Diaphragms.py:64-79 | one diaphragm per node index, carrying that index, in node order |
| Diaphragms.MatchNodeIndicesAsWritten | collection/Diaphragms.py:57-83 | the object list is replaced, the index dictionary is left as it was |
| Diaphragms.MatchNodeIndicesStale | collection/Diaphragms.py:82 | on an empty collection matched to node 1 the list holds diaphragm 1 but `get(1)` finds nothing |
| Diaphragms.MatchNodeIndices | collection/Diaphragms.py:57-83 | the same list, with the dictionary consistent with it |
| Diaphragms.MatchNodeIndicesContents | collection/Diaphragms.py:57-83 | exactly the node indices in order; a node with a diaphragm keeps the last one carrying its index; a node without gets the default; no other diaphragm survives |
| Diaphragms.MatchNodeIndicesGet | collection/Diaphragms.py:57-83 | with distinct node indices, `get` finds each node's diaphragm |
| Diaphragms.MaxIndex | ObjectCollection/Diaphragms.py:58-59 | 0 for no diaphragms, otherwise an existing index no smaller than any |
| Diaphragms.DefaultRange | ObjectCollection/Diaphragms.py:62-65 | `range(lo, hi + 1)` gives `hi - lo + 1` defaults, none when empty, the k-th with index `lo + k` |
| Diaphragms.ExtendToKeeps | ObjectCollection/Diaphragms.py:67 | the existing diaphragms stay first and unchanged |
| Diaphragms.ExtendToCount | ObjectCollection/Diaphragms.py:58-67 | one diaphragm per index above the maximum up to the target, none when the target is not above it |
| Diaphragms.ExtendToAdded | ObjectCollection/Diaphragms.py:62-67 | the added diaphragms carry max+1, max+2, ... in order |
| Diaphragms.ExtendToConsistent | ObjectCollection/Diaphragms.py:57-68 | extending keeps the index dictionary consistent |
| Diaphragms.ExtendToGet | ObjectCollection/Diaphragms.py:57-68 | `get` finds each new diaphragm under its index |
| Diaphragms.ExtendToIdempotent | ObjectCollection/Diaphragms.py:57-68 | extending twice to the same target adds nothing the second time |
| ModelText.ParseBlockHeader | Model/Model.py:17-21 | a header exactly when the stripped line is longer than two characters and starts and ends with `*`; it is non-empty and the stripped line is that header's line |
| ModelText.HeaderRoundTrip | Model/Model.py:17-21 | a written header line reads back as the same header |
| ModelText.Clean | Model/Model.py:107 | at most as many lines, each non-blank and right-stripped |
| ModelText.TidyKept | Model/Model.py:107 | a non-blank right-stripped line is kept as it is |
| ModelText.BlankDropped | Model/Model.py:107 | a blank line is dropped |
| ModelText.CleanConcat | Model/Model.py:107 | the filter works line by line |
| ModelText.CleanTidy | Model/Model.py:107 | lines that are all tidy are kept unchanged |
| ModelText.FromLines | Model/Model.py:104-109 | the block carries the given header and a tidy body |
| ModelText.FromLinesIdempotent | Model/Model.py:104-109 | rebuilding a block from its own body changes nothing |
| ModelText.Lookup | Model/Model.py:14 | a header is found exactly when some block carries it |
| ModelText.Put | Model/Model.py:46-76 | assigning into the ordered dictionary keeps the earlier keys in place and appends at most the new block |
| ModelText.PutShape | Model/Model.py:46-76 | a new header goes last; an existing one keeps the count |
| ModelText.PutDistinct | Model/Model.py:46-76 | headers stay distinct |
| ModelText.PutLookup | Model/Model.py:46-76 | afterwards the header holds the new body and every other header what it held |
| ModelText.Step | Model/Model.py:41-72 | one turn of the loop keeps the saved headers distinct |
| ModelText.Finish | Model/Model.py:74-76 | saving the open block keeps the headers distinct |
| ModelText.FromText | Model/Model.py:27-78 | the blocks read carry distinct headers |
| ModelText.FileLines | Model/Model.py:41 | the lines iterated hold no newline |
| ModelText.RunConcat | Model/Model.py:41-72 | reading two stretches of lines is reading one after the other |
| ModelText.PlainStep | Model/Model.py:71-72 | outside the DESCRIPTION span a plain line only adds itself right-stripped, or nothing when blank |
| ModelText.RunPlain | Model/Model.py:63-72 | outside the DESCRIPTION span plain lines only add their non-blank lines, right-stripped |
| ModelText.HeaderStep | Model/Model.py:63-70 | a header line saves the open block and opens an empty one |
| ModelText.PreambleDropped | Model/Model.py:63-72 | lines before the first header are discarded |
| ModelText.SingleBlock | Model/Model.py:27-109 | a header line and plain lines read as the one block `from_lines` builds from those lines |
| ModelText.DescStep | Model/Model.py:54-61 | inside the span a line is kept right-stripped |
| ModelText.RunInDescription | Model/Model.py:54-61 | inside the span every line is kept right-stripped, blank lines included |
| ModelText.DescOpenStep | Model/Model.py:42-52 | a `<DESCRIPTION>` line opens the span with itself |
| ModelText.DescCloseStep | Model/Model.py:57-60 | an `<END>` line closes the span and saves it |
| ModelText.DescriptionSpan | Model/Model.py:42-61 | the DESCRIPTION block runs from the `<DESCRIPTION>` line through the `<END>` line, every line right-stripped |
| ModelText.ToLinesSnoc | Model/Model.py:86-95 | the written lines of one more block follow the others' |
| ModelText.BlockRun | Model/Model.py:63-92 | a written plain block's lines save the open block and leave this one open with its body collected |
| ModelText.RunBlocks | Model/Model.py:41-95 | reading the lines of plain blocks leaves all but the last saved and the last open with its body |
| ModelText.LinesRoundTrip | Model/Model.py:27-95 | reading the lines written for plain blocks gives the blocks back |
| ModelTextWrite.BlockTextLines | Model/Model.py:90-94 | a non-DESCRIPTION block's text is its header line and body joined by newlines, body or not |
| ModelTextWrite.TextsJoin | Model/Model.py:84-97 | joining the block texts is joining all their lines |
| ModelTextWrite.SplitJoin | Model/Model.py:41-97 | splitting newline-joined lines without newlines gives them back |
| ModelTextWrite.ToLinesShape | Model/Model.py:86-97 | the written lines hold no newline, the first is a header line and the last ends in a non-space |
| ModelTextWrite.EmptyText | Model/Model.py:27-98 | writing no blocks gives a text that reads as no blocks |
| ModelTextWrite.JoinStripped | Model/Model.py:97 | `strip()` leaves a join alone whose ends are not spaces |
| ModelTextWrite.LinesText | Model/Model.py:41-97 | lines without newlines, starting and ending in a non-space, come back from their written text |
| ModelTextWrite.TextLines | Model/Model.py:41-98 | the lines of the text written for plain blocks are the blocks' lines |
| ModelTextWrite.TextRoundTrip | Model/Model.py:27-98 | reading back the text written for plain blocks gives the blocks |
| Variables.LastIndex | Variable/VariableAbstract.py:24 | None exactly when the character does not occur; otherwise its last position |
| Variables.MatchAssign | Variable/VariableAbstract.py:24-29 | a match needs an `=` in the stripped line |
| Variables.MatchTextIff | Variable/VariableAbstract.py:24-27 | a stripped line matches exactly when it has an `=` and the text after the last one, left-stripped, is an optionally negative run of digits |
| Variables.Inverse | Variable/VariableAbstract.py:23 | the labels of the inverted table are exactly the table's labels |
| Variables.Assigned | Variable/VariableAbstract.py:26-32 | one assignment per body line, in order |
| Variables.ScanStep | Variable/VariableAbstract.py:26-32 | one more line sets its field to its value and leaves every other field as it was |
| Variables.ScanLast | Variable/VariableAbstract.py:26-32 | a field is read exactly when some line sets it, and then holds the value of the last line that does |
| Variables.FromMdl | Variable/VariableAbstract.py:20-34 | AttributeError exactly when the block is absent; otherwise a value for every field of the record and no other |
| Variables.FromMdlValue | Variable/VariableAbstract.py:32-34 | a field holds what the scan read, or 0 |
| Variables.FromMdlFields | Variable/VariableAbstract.py:20-34 | a field no line sets is 0; otherwise it holds the value of the last line setting it |
| Variables.ToLines | Variable/VariableAbstract.py:47-52 | the header `*KEY*`, then one formatted line per table entry, in table order, with 0 for a field the record lacks |
| Variables.BodyLines | Variable/VariableAbstract.py:56-59 | one formatted line per table entry, in table order |
| Variables.ToBlock | Variable/VariableAbstract.py:54-60 | a block under the block key whose body is the table lines as `from_lines` keeps them |
| Variables.ToModel | Variable/VariableAbstract.py:62-71 | the block key now holds the record's block; every other header is untouched; headers stay distinct |
| Variables.FromModel | Variable/VariableAbstract.py:20-21 | fails exactly when the model holds no block under the key |
| Variables.AssignLineMatch | Variable/VariableAbstract.py:24-29 | a "label = value" line reads back as that label and value |
| Variables.InverseAt | Variable/VariableAbstract.py:23 | in a table with distinct labels each label names its own field |
| Variables.WrittenLineSets | Variable/VariableAbstract.py:23-59 | the line written for a table entry sets exactly that entry's field to its value |
| Variables.RoundTrip | Variable/VariableAbstract.py:20-52 | writing a record and reading the body back gives every table field its value and every other field 0 |
| Variables.ModelRoundTrip | Variable/VariableAbstract.py:20-71 | storing a record with `to_model` and reading it back gives every table field its value and every other field 0, whatever else the model holds |
| Loading.IncreasingUnique | Variable/Loading.py:174 | two increasing sequences with the same elements are equal, so `sorted` is determined by the keys |
| Loading.Trim | Variable/Loading.py:173-181 | unchanged for a count that is not positive; otherwise a sub-table whose kept numbers are all below the dropped ones |
| Loading.TrimKeys | Variable/Loading.py:174-179 | trimming keeps the `num` lowest combination numbers, or all when there are fewer |
| Loading.TrimAll | Variable/Loading.py:174-179 | a count at least the table's size keeps the whole table |
| Loading.TrimIdempotent | Variable/Loading.py:173-181 | trimming twice by the same count trims once |
| Loading.ReadLine | Variable/Loading.py:142-159 | a count line sets both counts; a combination line with a number and two or more values stores the values after the first under that number in its table, replacing the old row; otherwise nothing changes |
| Loading.ReadLinesKeys | Variable/Loading.py:135-159 | the combination numbers at the end are the starting ones plus those of every stored line of that kind |
| Loading.FinishCombos | Variable/Loading.py:173-181 | each table is kept whole for a count that is not positive, else trimmed to the lowest `count` numbers |
| Loading.ReadCombos | Variable/Loading.py:120-123 | ValueError exactly when the LOADING block is absent |
| Loading.ReadCombosKeys | Variable/Loading.py:120-181 | every returned combination comes from a stored line of its kind; with no positive count every stored one is returned |
| Loading.LinesFor | Variable/Loading.py:232-234 | one formatted line per number, in the given order |
| Loading.ComboLines | Variable/Loading.py:232-261 | one line per combination |
| Loading.ComboLinesOrder | Variable/Loading.py:232-261 | a lower-numbered combination is written before a higher one |
| Loading.ComboLinesTrim | Variable/Loading.py:173-234 | writing a trimmed table writes the first lines of the untrimmed one |
| Loading.UnitRow | Variable/Loading.py:334-335 | `n` zeros with 1.0 at position `i` |
| Loading.IdentityRows | Variable/Loading.py:333-336 | after `i` rounds the table holds rows 1..i, row k having its 1.0 at k - 1 |
| Loading.Identity | Variable/Loading.py:330-353 | rows 1..n, each of width n, with 1.0 exactly on the diagonal and 0.0 elsewhere; none for n <= 0 |
| Loading.IdentityCombos | Variable/Loading.py:332-336 | the loop builds exactly the identity table |
| Loading.IdentityColumns | Variable/Loading.py:330-353 | each column holds its 1.0 in exactly one row, so the table is symmetric |
| Loading.WithCombinationSettings | Variable/Loading.py:317-328 | sets type, option, system count and `(num_factored, num_unfactored)`, and nothing else |
| Loading.WithIdentityFactored | Variable/Loading.py:330-338 | the factored table becomes the identity; nothing else changes |
| Loading.WithUnfactored | Variable/Loading.py:345-353 | the unfactored table becomes the identity; nothing else changes |
| Loading.Numbered | Variable/Loading.py:342 | row i of the list is combination i + 1, and there are no others |
| Loading.WithCustomFactored | Variable/Loading.py:340-343 | the factored table numbers the rows from 1; nothing else changes |
| Loading.IdentityBuildersAgree | Variable/Loading.py:330-353 | both identity builders build the same table, and the custom builder given unit rows builds it too |
| Loading.IdentitySorted | Variable/Loading.py:332-336 | the sorted numbers of an identity table are 1..n |
| Loading.TrimIdentity | Variable/Loading.py:173-181 | trimming an identity table by a positive count keeps rows 1 up to the count |
| Loading.DefaultCombinations | Variable/Loading.py:317-381 | the default settings give counts (6, 6) and two seven-row identity tables |
| Loading.DefaultTrimmed | Variable/Loading.py:173-181 | the default tables hold combination 7 but trimming by the default counts keeps 1 to 6 only |

## Left out

- File and spreadsheet I/O: opening `.MDL` files, `BlockAdapter.from_text`/`to_text`, and the Excel import/export. A model is a list of lines or blocks instead.
- Floating-point formatting and arithmetic: `_norm_float`, the `format_line` number formats, `{v:7.3f}`, and elastic-modulus maths. Reals are exact, and each `format_line` is a function parameter.
- The fixed-column token parsers of designs, sections, materials, stories, offsets and beam loads. The layout and slab item parsers and the header parser are parameters of the framing model.
- The scalar fields of the LOADING block (Variable/Loading.py:161-171). Only the combination tables are modelled; a line reaches the reader already classified as a count line, a combination line or another line (`Loading.LoadLine`).
- `parsing_unfactored` (Variable/Loading.py:131, 139): it is set but never read.
- `Loading.DefaultCombinations`: only the combination part of `set_load_combination` is modelled; the other builders set scalar fields.
- `LayoutAdapter.to_block`/`to_string`: formatting through abstract hooks.
- Partial mutation: where the source rebinds items in place and raises part-way, the model returns the error and no partly updated collection.
- After an in-place update, a dictionary is rebuilt from the list, which is what the update leaves for a consistent collection.
- Lines are modelled without their terminator; a `\r\n` file, and a newline inside a stored line, are not modelled.
- `tower_data` and `diaph_data` are one string each, not the one-element lists the source keeps.
- Characters are ASCII: `str.isspace`, case mapping, `\d` and `[A-Za-z]` are their ASCII forms.
- Scan.ParseFloat: accepts only surrounding whitespace, an optional sign and `digits[.digits]`; exponents, `inf`, `nan` and underscores are not modelled.
- Text.ParseInt: accepts only surrounding whitespace, an optional sign and ASCII digits; underscores and other Unicode digits are not modelled.
- NodeQuery.GetByIndices: its own contract states only which nodes are returned; the index order and the repeats are stated by NodeQuery.GetByIndicesConcat and NodeQuery.GetByIndicesAllPresent.
- NodeQuery.InsideNodes: its own contract states only which nodes are kept; the collection order is stated by NodeQuery.InsideNodesConcat and NodeQuery.InsideNodesOne.
- Merge.MergeAndReorder, Elsets.MergeElsets: the merge sorts by the corrected total key order (Designs.DesignOrderTotal). Where two design keys put a number and a string at the first differing position (`B15` and `B15/20`), the source's `sorted(merged, key=key)` (collection/_collection_abstract.py:792) raises TypeError; the model does not, because which pairs the sort compares is not modelled.
- NodeQuery.Crossing: the division is exact; the rounding of the float quotient is not modelled.
- Geometry.Round6: states only that rounding moves a coordinate by at most half of 10⁻⁶; the exact float of `round` is not modelled.
- The mirror and replicate engines for beams, columns, regions and beam loads, the scripts, and the near-duplicate legacy copies of the collections are not part of this model.

## Findings

| source | as written | input that shows it | evidently intended | confidence | as-written member | corrected member |
|---|---|---|---|---|---|---|
| collection/CollectionAbstract.py:401 | `removed_any = len(reorder_map) != len(existing.objects)` | existing `[A, A]` (two objects named `A`), imported `[A]`: the map has one entry, so the flag is set, yet no name was removed | true exactly when some existing name is missing from the result, as the current merge computes | medium, not executed | Merge.LegacyRemovedAnyCounterexample | Merge.MergeRemovedAny |
| collection/designs.py:890-892, 946-947 | the key spreads the name's numbers and then the suffix string into one tuple | two girders `B15` and `B15/20`: Python compares the string `""` with the number `20.0` and raises TypeError | a total order on designs (numbers before strings), which the model's merges sort by | medium, not executed | Designs.DesignKeyTypeError, Designs.DesignKeyTypeErrorExample | Designs.DesignOrderTotal |
| collection/Nodes.py:93-96 | `collection.index(i)`, a method the collection does not have | any boundary with one or more node indices raises AttributeError, so `select_by_polygon` never selects | `collection.get(i)`, keeping the indices present | high, not executed | NodeQuery.GetByIndicesAsWritten, NodeQuery.SelectByPolygonAsWritten, NodeQuery.SelectByPolygonDiscrepancy | NodeQuery.SelectByPolygon |
| collection/Diaphragms.py:82 | `collection.objects = new_objects` leaves `_index` as it was | an empty collection matched to node `[1]`: the list holds diaphragm 1, but `get(1)` returns None | the index dictionary rebuilt for the new list | high, not executed | Diaphragms.MatchNodeIndicesAsWritten, Diaphragms.MatchNodeIndicesStale | Diaphragms.MatchNodeIndices |
