# KNIME core pieces, modelled and verified in Dafny

This project models six pieces of the KNIME Analytics Platform in Dafny and proves what their code promises.

- **Tree ensemble classification node** (`TreeNodeClassification`, file `tree_node.dfy`): a node of a
  classification tree in a tree ensemble.
  - The node stores its majority class index and, optionally, the full class distribution.
  - Its per-node payload is written to a binary stream and read back, with a stream-level flag that says
    whether distributions were stored.
  - It converts to a legacy `DecisionTreeNode`, taking node ids from a shared counter.
  - It renders as an indented text tree.
  - The stream is a sequence of tokens (one per `writeDouble`/`writeInt`), so save/load round trips can be
    stated.
- **PMML metadata mapper** (`MetaDataMapper`, file `metadata_mapper.dfy`): turns the columns of a PMML data
  dictionary into a table from field name to nominal or numeric column helper.
  - The last column is the target.
  - Vector-like columns without domain information are rejected, and so are columns of an unsupported type.
  - The lookups fail on unknown fields or on a field of the wrong kind.
- **Tree-model PMML translator** (`TreeModelPMMLTranslator`, file `pmml_translator.dfy`): the object that
  imports a tree from a PMML document's single `TreeModel` element and exports a tree into a document.
  - It remembers the last warning the exporter reported.
  - The importer and the exporter are function-valued parameters; the metadata mapper is the one of
    `MetaDataMapper`, the model of `AbstractMetaDataMapper.createMetaDataMapper`.
- **Ungroup operation** (`Ungroup`, file `ungroup.dfy`): expands the collection cells of selected columns
  into rows.
  - It builds the output column layout.
  - It clones an input row with the new cells spliced in.
  - It walks the collections in lockstep, padding exhausted ones with missing cells, and names the output
    rows `<key>_1, <key>_2, …`.
  - It can skip rows whose new cells are all missing, and it builds the hilite map from each input key to
    the keys it produced.
  - The row loop is an imperative method proved against a function on rows.
- **Filter table model** (`FilterTableModel`, file `table_model.dfy`): `MyTableModel`, the list behind the
  include and exclude tables of a name filter panel. It is a class whose `data` sequence the methods change
  in place.
- **Name filter panel list state** (`NameFilter`, file `name_filter.dfy`): the `NameFilterPanel` class
  restricted to what its operations change:
  - the master order;
  - the two table models;
  - the hidden names;
  - the invalid includes and excludes;
  - the filter-type priority map.

  Each method is proved against a function on a `Lists` value. The lemmas about those functions state
  membership, order and multiplicity.

Helpers: `Outcomes` (file `outcomes.dfy`) holds the `Option` and `Result` types that stand for `null` and
for thrown exceptions. `Sequences` (file `sequences.dfy`) holds the library semantics the list code relies
on: filtering, `ArrayList.remove(Object)`, `removeAll` and `LinkedHashSet.add`.

## Model

| member | source | states |
|---|---|---|
| TreeNodeClassification.TargetDistribution | org.knime.base.treeensembles/src/org/knime/base/node/mine/treeensemble/model/TreeNodeClassification.java:148-157 | a stored distribution is returned as it is; otherwise a one-hot vector with one entry per target value and 1.0 at the majority index; a majority index outside the target values is an error (the array store would throw) |
| TreeNodeClassification.MajorityClassName | org.knime.base.treeensembles/src/org/knime/base/node/mine/treeensemble/model/TreeNodeClassification.java:137-140 | succeeds exactly when the majority index is a valid target index, and then names that target value |
| TreeNodeClassification.CreateExposesPriors | org.knime.base.treeensembles/src/org/knime/base/node/mine/treeensemble/model/TreeNodeClassification.java:96-105 | a node built from priors always reports the priors' majority class; it returns the priors' distribution when distributions are saved, and the one-hot vector otherwise |
| TreeNodeClassification.FirstMaxIndex | org.knime.base.treeensembles/src/org/knime/base/node/mine/treeensemble/model/TreeNodeClassification.java:113-122 | the index is in range, its value is a maximum, and every earlier value is strictly smaller |
| TreeNodeClassification.FirstMaxIndexUnique | org.knime.base.treeensembles/src/org/knime/base/node/mine/treeensemble/model/TreeNodeClassification.java:113-122 | the first maximal index is the only index with those two properties |
| TreeNodeClassification.TieGoesToFirstIndex | org.knime.base.treeensembles/src/org/knime/base/node/mine/treeensemble/model/TreeNodeClassification.java:117 | with the strict `>` comparison, a later equal value does not take the majority from an earlier one |
| TreeNodeClassification.PayloadTokens | org.knime.base.treeensembles/src/org/knime/base/node/mine/treeensemble/model/TreeNodeClassification.java:200-209 | the payload of a node with a distribution is its values as doubles in index order; without one it is a single int, the majority index |
| TreeNodeClassification.ReadDoubles | org.knime.base.treeensembles/src/org/knime/base/node/mine/treeensemble/model/TreeNodeClassification.java:115-122 | a successful read yields exactly `count` values |
| TreeNodeClassification.ReadDoublesReads | org.knime.base.treeensembles/src/org/knime/base/node/mine/treeensemble/model/TreeNodeClassification.java:115-122 | reading succeeds exactly when the next `count` tokens are doubles, and then yields them in stream order |
| TreeNodeClassification.ReadDoublesOfEncoded | org.knime.base.treeensembles/src/org/knime/base/node/mine/treeensemble/model/TreeNodeClassification.java:115-121 | reading back encoded doubles, whatever follows them, returns the first `count` of them |
| TreeNodeClassification.DistributionModeLoad | org.knime.base.treeensembles/src/org/knime/base/node/mine/treeensemble/model/TreeNodeClassification.java:107-124 | in distribution mode, loading consumes one double per target value, stores them in read order, and takes as majority the first index of the strict maximum (-1 when there are no target values) |
| TreeNodeClassification.CompactModeLoad | org.knime.base.treeensembles/src/org/knime/base/node/mine/treeensemble/model/TreeNodeClassification.java:125-128 | in compact mode, loading consumes one int, leaves the distribution absent and takes that int as the majority index |
| TreeNodeClassification.SaveLoadRoundTrip | org.knime.base.treeensembles/src/org/knime/base/node/mine/treeensemble/model/TreeNodeClassification.java:107-128 | loading what save wrote, under the matching stream flag, consumes exactly the payload and restores the distribution; it restores the majority index in compact mode, and in distribution mode whenever the stored index is the first maximum |
| TreeNodeClassification.CreatedNodeAgrees | org.knime.base.treeensembles/src/org/knime/base/node/mine/treeensemble/model/TreeNodeClassification.java:96-105 | a node built from priors whose majority index is the first maximum of their distribution survives a save/load round trip unchanged |
| TreeNodeClassification.DataOutputStream.WriteDouble | org.knime.base.treeensembles/src/org/knime/base/node/mine/treeensemble/model/TreeNodeClassification.java:204 | appends one double token to the stream |
| TreeNodeClassification.DataOutputStream.WriteInt | org.knime.base.treeensembles/src/org/knime/base/node/mine/treeensemble/model/TreeNodeClassification.java:207 | appends one int token to the stream |
| TreeNodeClassification.TreeModelDataInputStream.constructor | org.knime.base.treeensembles/src/org/knime/base/node/mine/treeensemble/model/TreeNodeClassification.java:111 | the stream starts at its first token and carries the contains-class-distribution flag |
| TreeNodeClassification.TreeModelDataInputStream.ReadDouble | org.knime.base.treeensembles/src/org/knime/base/node/mine/treeensemble/model/TreeNodeClassification.java:116 | a double token is returned and consumed; end of stream or a token of the wrong kind is an error that consumes nothing |
| TreeNodeClassification.TreeModelDataInputStream.ReadInt | org.knime.base.treeensembles/src/org/knime/base/node/mine/treeensemble/model/TreeNodeClassification.java:127 | an int token is returned and consumed; end of stream or a token of the wrong kind is an error that consumes nothing |
| TreeNodeClassification.SaveInSubclass | org.knime.base.treeensembles/src/org/knime/base/node/mine/treeensemble/model/TreeNodeClassification.java:199-209 | the stream grows by exactly the node's payload tokens |
| TreeNodeClassification.Load | org.knime.base.treeensembles/src/org/knime/base/node/mine/treeensemble/model/TreeNodeClassification.java:107-128 | the loaded node is the decoded payload attached to the given frame and children; the stream advances by the payload length, and a read failure is reported |
| TreeNodeClassification.ReadDistribution | org.knime.base.treeensembles/src/org/knime/base/node/mine/treeensemble/model/TreeNodeClassification.java:111-124 | the running-maximum loop returns the values read and the first maximal index, advancing the stream by the target length |
| TreeNodeClassification.Put | org.knime.base.treeensembles/src/org/knime/base/node/mine/treeensemble/model/TreeNodeClassification.java:246 | `LinkedHashMap.put` of a new key appends the entry at the end |
| TreeNodeClassification.PutExisting | org.knime.base.treeensembles/src/org/knime/base/node/mine/treeensemble/model/TreeNodeClassification.java:246 | `put` of an existing key replaces its value in place, keeping the insertion order |
| TreeNodeClassification.ScoreMapInOrder | org.knime.base.treeensembles/src/org/knime/base/node/mine/treeensemble/model/TreeNodeClassification.java:241-247 | with distinct target names, the score map has one entry per distribution value, in target order, pairing each name with its value |
| TreeNodeClassification.Predicates | org.knime.base.treeensembles/src/org/knime/base/node/mine/treeensemble/model/TreeNodeClassification.java:257-261 | one child predicate per child |
| TreeNodeClassification.LegacyCounterAdvances | org.knime.base.treeensembles/src/org/knime/base/node/mine/treeensemble/model/TreeNodeClassification.java:248-266 | converting a subtree advances the id counter by exactly its number of nodes |
| TreeNodeClassification.LegacyIdsArePreorder | org.knime.base.treeensembles/src/org/knime/base/node/mine/treeensemble/model/TreeNodeClassification.java:248-266 | the ids of the converted subtree, in pre-order, are the consecutive integers after the counter's old value |
| TreeNodeClassification.LegacyIdsIncrease | org.knime.base.treeensembles/src/org/knime/base/node/mine/treeensemble/model/TreeNodeClassification.java:250-262 | there is one id per node, strictly increasing in pre-order: a parent gets its id before its children |
| TreeNodeClassification.LegacyNodeShape | org.knime.base.treeensembles/src/org/knime/base/node/mine/treeensemble/model/TreeNodeClassification.java:237-266 | the legacy node is a leaf exactly when the node has no children; a split has one child and one predicate per child; it carries the majority class name and a score map pairing each distribution entry with the target value of its index |
| TreeNodeClassification.LegacyChildrenCount | org.knime.base.treeensembles/src/org/knime/base/node/mine/treeensemble/model/TreeNodeClassification.java:253-263 | one converted child per child |
| TreeNodeClassification.MutableInteger.Inc | org.knime.base.treeensembles/src/org/knime/base/node/mine/treeensemble/model/TreeNodeClassification.java:250 | the counter goes up by one and the new value is returned |
| TreeNodeClassification.CreateDecisionTreeNode | org.knime.base.treeensembles/src/org/knime/base/node/mine/treeensemble/model/TreeNodeClassification.java:237-267 | the imperative conversion, threading the shared counter object, yields the result and final counter of the conversion with failures; by `ConvertSucceedsIffConsistent` it fails exactly on an inconsistent node and otherwise yields the legacy tree of the failure-free conversion |
| TreeNodeClassification.ConvertSucceedsIffConsistent | org.knime.base.treeensembles/src/org/knime/base/node/mine/treeensemble/model/TreeNodeClassification.java:237-266 | the conversion succeeds exactly when the majority index is in range, the distribution is no longer than the target values, an inner node has a split attribute in range and every child has a condition, recursively; then it equals the failure-free conversion, tree and counter |
| TreeNodeClassification.ConvertChildrenSucceedIffConsistent | org.knime.base.treeensembles/src/org/knime/base/node/mine/treeensemble/model/TreeNodeClassification.java:257-262 | the children loop succeeds exactly when every child has a condition and converts, and then yields the children of the failure-free conversion |
| TreeNodeClassification.ConvertChildrenStopsAtFailure | org.knime.base.treeensembles/src/org/knime/base/node/mine/treeensemble/model/TreeNodeClassification.java:257-262 | the first failing child ends the loop: its error and the counter at that point are the loop's outcome |
| TreeNodeClassification.BuildScoreMap | org.knime.base.treeensembles/src/org/knime/base/node/mine/treeensemble/model/TreeNodeClassification.java:240-247 | the `put` loop yields the score map of the target names and distribution |
| TreeNodeClassification.RenderCoversSubtree | org.knime.base.treeensembles/src/org/knime/base/node/mine/treeensemble/model/TreeNodeClassification.java:171-196 | the text rendering has one line per node of the subtree; the first line is the node itself (its condition and majority class, at the given indent) and every line is indented at least as deep |
| TreeNodeClassification.RenderChildrenCover | org.knime.base.treeensembles/src/org/knime/base/node/mine/treeensemble/model/TreeNodeClassification.java:190-194 | the children's lines are one per node of the children's subtrees, all at least as deep as the given indent |
| MetaDataMapper.CheckForVectorColumn | org.knime.base.treeensembles2/src/org/knime/base/node/mine/treeensemble2/model/pmml/AbstractMetaDataMapper.java:124-140 | rejects a column exactly when its name is a vector field name and it lacks domain information: a string-compatible column with no or empty values, or a double-compatible (not string-compatible) column without bounds |
| MetaDataMapper.Classify | org.knime.base.treeensembles2/src/org/knime/base/node/mine/treeensemble2/model/pmml/AbstractMetaDataMapper.java:106-113 | succeeds exactly for string- or double-compatible columns; the helper is nominal exactly when the column is string-compatible (string takes precedence) and records the column and its index; anything else is an unsupported-type error |
| MetaDataMapper.CreateColumnHelperMapFromSpec | org.knime.base.treeensembles2/src/org/knime/base/node/mine/treeensemble2/model/pmml/AbstractMetaDataMapper.java:101-116 | the map-filling loop yields the helper map of the columns or the first column's error |
| MetaDataMapper.HelperMapSucceeds | org.knime.base.treeensembles2/src/org/knime/base/node/mine/treeensemble2/model/pmml/AbstractMetaDataMapper.java:101-116 | the map is built exactly when every column passes the vector check and classification |
| MetaDataMapper.HelperMapReportsFirstFailure | org.knime.base.treeensembles2/src/org/knime/base/node/mine/treeensemble2/model/pmml/AbstractMetaDataMapper.java:103-113 | a failure is the error of the first failing column, all earlier columns having passed |
| MetaDataMapper.HelperMapKeys | org.knime.base.treeensembles2/src/org/knime/base/node/mine/treeensemble2/model/pmml/AbstractMetaDataMapper.java:108-110 | the map's keys are exactly the column names |
| MetaDataMapper.HelperMapEntriesSelfNamed | org.knime.base.treeensembles2/src/org/knime/base/node/mine/treeensemble2/model/pmml/AbstractMetaDataMapper.java:108-110 | every entry is keyed by its own column's name and records that column's position |
| MetaDataMapper.HelperMapLastPutWins | org.knime.base.treeensembles2/src/org/knime/base/node/mine/treeensemble2/model/pmml/AbstractMetaDataMapper.java:107-110 | under a repeated name the helper of the last such column is kept |
| MetaDataMapper.HelperMapOnePerColumn | org.knime.base.treeensembles2/src/org/knime/base/node/mine/treeensemble2/model/pmml/AbstractMetaDataMapper.java:101-116 | with distinct names, there is exactly one helper per column, at that column's index and of the right kind |
| MetaDataMapper.HelperMapSize | org.knime.base.treeensembles2/src/org/knime/base/node/mine/treeensemble2/model/pmml/AbstractMetaDataMapper.java:101-116 | with distinct names, the map has as many entries as columns |
| MetaDataMapper.NewMapperSplitsTarget | org.knime.base.treeensembles2/src/org/knime/base/node/mine/treeensemble2/model/pmml/AbstractMetaDataMapper.java:86-97 | the last dictionary column is the target; attribute helpers are built only from the others, at their positions; an empty dictionary is an error |
| MetaDataMapper.NewMapperSucceeds | org.knime.base.treeensembles2/src/org/knime/base/node/mine/treeensemble2/model/pmml/AbstractMetaDataMapper.java:86-97 | the mapper is built exactly when the dictionary is non-empty and every attribute column passes |
| MetaDataMapper.GetColumnHelper | org.knime.base.treeensembles2/src/org/knime/base/node/mine/treeensemble2/model/pmml/AbstractMetaDataMapper.java:147-151 | succeeds exactly for a registered field, returning its helper; an unknown field is an error |
| MetaDataMapper.IsNominal | org.knime.base.treeensembles2/src/org/knime/base/node/mine/treeensemble2/model/pmml/AbstractMetaDataMapper.java:165-168 | for a registered field, true exactly when its helper is nominal; an unknown field is an error |
| MetaDataMapper.GetNominalColumnHelper | org.knime.base.treeensembles2/src/org/knime/base/node/mine/treeensemble2/model/pmml/AbstractMetaDataMapper.java:174-179 | succeeds exactly for a registered nominal field; an unknown field and a numeric field are distinct errors |
| MetaDataMapper.GetNumericColumnHelper | org.knime.base.treeensembles2/src/org/knime/base/node/mine/treeensemble2/model/pmml/AbstractMetaDataMapper.java:185-190 | succeeds exactly for a registered numeric field; an unknown field and a nominal field are distinct errors |
| MetaDataMapper.TypedGettersPartition | org.knime.base.treeensembles2/src/org/knime/base/node/mine/treeensemble2/model/pmml/AbstractMetaDataMapper.java:165-190 | for a registered field exactly one of the nominal and numeric getters succeeds, and `isNominal` says which |
| MetaDataMapper.TreeMetaDataOnePerHelper | org.knime.base.treeensembles2/src/org/knime/base/node/mine/treeensemble2/model/pmml/AbstractMetaDataMapper.java:204-209 | the tree metadata holds exactly one attribute entry per registered helper, plus the target column |
| TreeModelPMMLTranslator.PmmlDocument.AddNewTreeModel | org.knime.base.treeensembles2/src/org/knime/base/node/mine/treeensemble2/model/pmml/AbstractTreeModelPMMLTranslator.java:125 | appends one tree model element to the document and leaves the data dictionary alone |
| TreeModelPMMLTranslator.NextWarningKeepsOrReplaces | org.knime.base.treeensembles2/src/org/knime/base/node/mine/treeensemble2/model/pmml/AbstractTreeModelPMMLTranslator.java:128-130 | a reported warning replaces the stored one; no report keeps it |
| TreeModelPMMLTranslator.LastReportedWarningWins | org.knime.base.treeensembles2/src/org/knime/base/node/mine/treeensemble2/model/pmml/AbstractTreeModelPMMLTranslator.java:128-130 | after a series of exports the stored warning is the last one reported, or the old one if none was; once set it is never cleared |
| TreeModelPMMLTranslator.Translator.FromTree | org.knime.base.treeensembles2/src/org/knime/base/node/mine/treeensemble2/model/pmml/AbstractTreeModelPMMLTranslator.java:83-85 | `getTree` then answers the given tree, `getTreeMetaData` nothing, and there is no warning |
| TreeModelPMMLTranslator.Translator.constructor | org.knime.base.treeensembles2/src/org/knime/base/node/mine/treeensemble2/model/pmml/AbstractTreeModelPMMLTranslator.java:87-89 | `getTree` and `getTreeMetaData` answer nothing and there is no warning |
| TreeModelPMMLTranslator.Translator.ImportNeedsExactlyOneTree | org.knime.base.treeensembles2/src/org/knime/base/node/mine/treeensemble2/model/pmml/AbstractTreeModelPMMLTranslator.java:95-108 | import fails for more than one and for no tree model; on success there was exactly one, the mapper was built, the tree is the importer's result and the metadata is the mapper's |
| TreeModelPMMLTranslator.Translator.InitializeFrom | org.knime.base.treeensembles2/src/org/knime/base/node/mine/treeensemble2/model/pmml/AbstractTreeModelPMMLTranslator.java:95-108 | on success `getTree` and `getTreeMetaData` answer the imported tree and the mapper's metadata and `getWarning` is unchanged; on any failure the error is returned and every field is unchanged |
| TreeModelPMMLTranslator.Translator.ExportTo | org.knime.base.treeensembles2/src/org/knime/base/node/mine/treeensemble2/model/pmml/AbstractTreeModelPMMLTranslator.java:123-132 | appends exactly one element, as far as the exporter wrote it, whether or not the exporter throws; on success returns the exporter's schema type and `getWarning` becomes the reported warning if any, else stays; on failure returns the error and `getWarning` is unchanged; `getTree` and `getTreeMetaData` are unchanged |
| TreeModelPMMLTranslator.Translator.HasWarning | org.knime.base.treeensembles2/src/org/knime/base/node/mine/treeensemble2/model/pmml/AbstractTreeModelPMMLTranslator.java:151-153 | true exactly when a warning is stored |
| Ungroup.CloneAt | org.knime.base/src/org/knime/base/node/preproc/ungroup/UngroupOperation.java:362-371 | where any one input cell lands in the clone: an unselected cell is copied; a selected cell is replaced by its new cell (remove mode) or followed by it (keep mode) |
| Ungroup.CloneLayout | org.knime.base/src/org/knime/base/node/preproc/ungroup/UngroupOperation.java:346-373 | the clone has as many cells as the row, plus one per selected column in keep mode, and every input cell lands as `CloneAt` says |
| Ungroup.CloneAlignedWhenAscending | org.knime.base/src/org/knime/base/node/preproc/ungroup/UngroupOperation.java:349-371 | with ascending selected indices, the i-th new cell lands next to the i-th selected column |
| Ungroup.CloneFollowsPositionOrder | org.knime.base/src/org/knime/base/node/preproc/ungroup/UngroupOperation.java:349-371 | new cells are consumed in column-position order, not in selection order: with indices [1, 0] the first new cell goes to column 0 |
| Ungroup.CloneStep | org.knime.base/src/org/knime/base/node/preproc/ungroup/UngroupOperation.java:363-370 | one pass of the two-cursor loop writes the column's piece and advances both cursors by what it consumed |
| Ungroup.SelectionMap | org.knime.base/src/org/knime/base/node/preproc/ungroup/UngroupOperation.java:349-352 | the lookup map has exactly the selected indices as keys |
| Ungroup.FillClone | org.knime.base/src/org/knime/base/node/preproc/ungroup/UngroupOperation.java:353-371 | the array filled by the two-cursor loop is the clone function's result |
| Ungroup.CreateClone | org.knime.base/src/org/knime/base/node/preproc/ungroup/UngroupOperation.java:346-373 | the new row has the new key and the cloned cells, keeping the selected columns unless they are removed |
| Ungroup.FindColumnIndex | org.knime.base/src/org/knime/base/node/preproc/ungroup/UngroupOperation.java:413-416 | -1 exactly when no column has the name; otherwise an index of a column with that name |
| Ungroup.CheckSelected | org.knime.base/src/org/knime/base/node/preproc/ungroup/UngroupOperation.java:413-422 | an unknown name and a non-collection column are distinct invalid-settings errors; otherwise the collection's element type |
| Ungroup.CollectionTypesOutcome | org.knime.base/src/org/knime/base/node/preproc/ungroup/UngroupOperation.java:411-424 | the element-type table is built exactly when every selected name passes; a failure is the first failing name's error; the table maps exactly the selected names to their element types |
| Ungroup.TableSpecLayout | org.knime.base/src/org/knime/base/node/preproc/ungroup/UngroupOperation.java:425-441 | the output keeps the input column order: each selected column is replaced by a same-name element column (remove mode) or followed by an element column with a unique name (keep mode), every other column is copied, and keep mode adds one column per selected column |
| Ungroup.CreateTableSpecInternal | org.knime.base/src/org/knime/base/node/preproc/ungroup/UngroupOperation.java:404-457 | no selected names leave the spec unchanged; otherwise the result is built exactly when every name is a collection column, and the loops yield the layout that `TableSpecLayout` describes |
| Ungroup.SuffixedKeysDistinct | org.knime.base/src/org/knime/base/node/preproc/ungroup/UngroupOperation.java:329 | distinct counters give distinct row keys `<key>_<n>` |
| Ungroup.Iterators | org.knime.base/src/org/knime/base/node/preproc/ungroup/UngroupOperation.java:261-273 | one iterator per selected column: its elements for a collection cell, none for any other cell |
| Ungroup.StepCells | org.knime.base/src/org/knime/base/node/preproc/ungroup/UngroupOperation.java:304-321 | each step produces one new cell per selected column |
| Ungroup.UngroupRowWithoutCollections | org.knime.base/src/org/knime/base/node/preproc/ungroup/UngroupOperation.java:274-288 | when no selected cell is a collection: with skip-missing no row, otherwise one row with the original key and all-missing new cells |
| Ungroup.CloneWithoutSelection | org.knime.base/src/org/knime/base/node/preproc/ungroup/UngroupOperation.java:346-373 | with no column selected the clone is the row's cells unchanged |
| Ungroup.UngroupRowWithoutColumns | org.knime.base/src/org/knime/base/node/preproc/ungroup/UngroupOperation.java:260-288 | with no column selected a row comes out unchanged, or not at all with skip-missing on |
| Ungroup.UngroupWithoutColumns | org.knime.base/src/org/knime/base/node/preproc/ungroup/UngroupOperation.java:248-288 | with no column selected the output is the input rows, keys and cells unchanged, or nothing with skip-missing on (the Javadoc at lines 238-239 promises the original rows in both cases) |
| Ungroup.UngroupRowAllEmpty | org.knime.base/src/org/knime/base/node/preproc/ungroup/UngroupOperation.java:297-335 | when all selected collections are empty, exactly one all-missing row keyed `<key>_1` is emitted, even with skip-missing |
| Ungroup.UngroupRowNonCollectionAndEmpty | org.knime.base/src/org/knime/base/node/preproc/ungroup/UngroupOperation.java:304-324 | a non-collection selected cell next to collections that are all empty yields no row at all |
| Ungroup.UngroupRowKeys | org.knime.base/src/org/knime/base/node/preproc/ungroup/UngroupOperation.java:290-335 | at most max-length rows are emitted, keyed `<key>_1, <key>_2, …` consecutively over the rows actually emitted |
| Ungroup.UngroupRowSteps | org.knime.base/src/org/knime/base/node/preproc/ungroup/UngroupOperation.java:299-335 | every emitted row is the row cloned with the cells of some emitted lockstep step |
| Ungroup.SkipMissingSteps | org.knime.base/src/org/knime/base/node/preproc/ungroup/UngroupOperation.java:325-327 | with skip-missing, a step is emitted exactly when some iterator still has elements and not all its new cells are missing |
| Ungroup.UngroupRowLockstep | org.knime.base/src/org/knime/base/node/preproc/ungroup/UngroupOperation.java:299-335 | without skip-missing, exactly max-length rows are emitted, the j-th holding the j-th element of every collection, padded with missing cells |
| Ungroup.UngroupRowKeysDistinct | org.knime.base/src/org/knime/base/node/preproc/ungroup/UngroupOperation.java:328-329 | the rows produced from one input row have pairwise distinct keys |
| Ungroup.HiliteMapEntries | org.knime.base/src/org/knime/base/node/preproc/ungroup/UngroupOperation.java:336-338 | every input row that produced rows maps to exactly the keys it produced, and rows that produced nothing have no entry |
| Ungroup.Advance | org.knime.base/src/org/knime/base/node/preproc/ungroup/UngroupOperation.java:303-321 | one pass over the iterators fills the new cells of the step and sets the continue, all-missing and all-empty flags as the lockstep functions define them |
| Ungroup.OpenIterators | org.knime.base/src/org/knime/base/node/preproc/ungroup/UngroupOperation.java:260-273 | the iterator array is the row's iterators, and the flag says that no selected cell is a collection |
| Ungroup.StepFlags | org.knime.base/src/org/knime/base/node/preproc/ungroup/UngroupOperation.java:297-327 | the flags the loop computes decide emission exactly as the row function does, and stop the loop after the last step |
| Ungroup.Step | org.knime.base/src/org/knime/base/node/preproc/ungroup/UngroupOperation.java:299-335 | one loop iteration keeps the pushed rows, keys and counter in step with the row function, and on stopping they are complete |
| Ungroup.ExpandCollections | org.knime.base/src/org/knime/base/node/preproc/ungroup/UngroupOperation.java:290-338 | the lockstep loop pushes exactly the rows of the row function, and collects their keys |
| Ungroup.ExpandRow | org.knime.base/src/org/knime/base/node/preproc/ungroup/UngroupOperation.java:260-338 | one input row yields exactly its ungrouped rows, and their keys for the hilite map |
| Ungroup.Compute | org.knime.base/src/org/knime/base/node/preproc/ungroup/UngroupOperation.java:244-343 | the output is the concatenation of every row's ungrouped rows, and with hilite enabled the hilite map is built from them |
| FilterTableModel.RemoveEverySpec | org.knime.core/src/eclipse/org/knime/core/node/util/filter/MyTableModel.java:98-99 | `removeAll` leaves no element of the argument, keeps every other element with all its occurrences, and keeps the relative order |
| FilterTableModel.ValueAt | org.knime.core/src/eclipse/org/knime/core/node/util/filter/MyTableModel.java:136-144 | a row at or past the end gives the string "invalid"; otherwise column 0 gives the column index itself and any other column the row's element |
| FilterTableModel.BoxedIndexRemovesNothing | org.knime.core/src/eclipse/org/knime/core/node/util/filter/MyTableModel.java:87-88 | `remove(Object)` called with an index boxed as an `Integer` removes no element |
| FilterTableModel.RemoveNothing | org.knime.core/src/eclipse/org/knime/core/node/util/filter/MyTableModel.java:98-102 | `removeAll` of an empty collection keeps the list as it is |
| FilterTableModel.MyTableModel.constructor | org.knime.core/src/eclipse/org/knime/core/node/util/filter/MyTableModel.java:66-68 | a new model is empty |
| FilterTableModel.MyTableModel.IsEmpty | org.knime.core/src/eclipse/org/knime/core/node/util/filter/MyTableModel.java:75-77 | empty exactly when the size is zero |
| FilterTableModel.MyTableModel.GetElementAt | org.knime.core/src/eclipse/org/knime/core/node/util/filter/MyTableModel.java:79-81 | the element at an index in range, which is in the list |
| FilterTableModel.MyTableModel.Remove | org.knime.core/src/eclipse/org/knime/core/node/util/filter/MyTableModel.java:87-91 | only the first occurrence is removed: `getSize` drops by one exactly when `contains` held before, every other element keeps its `contains` answer, and the answer is true even when the element was absent |
| FilterTableModel.MyTableModel.Clear | org.knime.core/src/eclipse/org/knime/core/node/util/filter/MyTableModel.java:93-96 | the list becomes empty: `getSize` is 0 and `contains` is false for every element |
| FilterTableModel.MyTableModel.RemoveAll | org.knime.core/src/eclipse/org/knime/core/node/util/filter/MyTableModel.java:98-102 | the list becomes the `removeAll` result: `contains` holds exactly for the old elements not in the collection, `getSize` does not grow, and the answer is always true |
| FilterTableModel.MyTableModel.AddRow | org.knime.core/src/eclipse/org/knime/core/node/util/filter/MyTableModel.java:104-107 | appends the element at the end: afterwards `contains` holds for it and every old element, and `getSize` grew by one |
| FilterTableModel.MyTableModel.AddAll | org.knime.core/src/eclipse/org/knime/core/node/util/filter/MyTableModel.java:109-115 | appends the collection in order: `getSize` grows by its length, `contains` holds exactly for old elements and the collection's; an empty collection changes nothing |
| FilterTableModel.MyTableModel.GetRowCount | org.knime.core/src/eclipse/org/knime/core/node/util/filter/MyTableModel.java:120-122 | the row count agrees with the size |
| FilterTableModel.MyTableModel.GetColumnCount | org.knime.core/src/eclipse/org/knime/core/node/util/filter/MyTableModel.java:128-130 | always two columns |
| FilterTableModel.MyTableModel.GetValueAt | org.knime.core/src/eclipse/org/knime/core/node/util/filter/MyTableModel.java:136-144 | `ValueAt` on this list; column 0 never yields an element |
| FilterTableModel.MyTableModel.GetColumnName | org.knime.core/src/eclipse/org/knime/core/node/util/filter/MyTableModel.java:150-152 | "type" for column 0 and "name" for column 1; any other column is outside the header (the array access throws) |
| NameFilter.UpdatedNamesPlaced | org.knime.core/src/eclipse/org/knime/core/node/util/filter/NameFilterPanel.java:835-852 | a name accepted by the filter is recorded in the order, goes to include if listed there, else to exclude if listed there, else to neither; a rejected name goes nowhere |
| NameFilter.UpdatePlacesNames | org.knime.core/src/eclipse/org/knime/core/node/util/filter/NameFilterPanel.java:814-860 | after `update`, the invalid includes and excludes head the include and exclude lists; every accepted name is placed as above; no names are hidden; the order is free of duplicates; an element the filter rejects and that is not invalid appears nowhere |
| NameFilter.ValidElementsSpec | org.knime.core/src/eclipse/org/knime/core/node/util/filter/NameFilterPanel.java:907-930 | the getters return exactly the list's elements whose names are not invalid, without duplicates, in list order |
| NameFilter.HideOneSpec | org.knime.core/src/eclipse/org/knime/core/node/util/filter/NameFilterPanel.java:979-994 | hiding a name removes one occurrence from include, or else from exclude, and records it as hidden; a name in neither list changes nothing |
| NameFilter.HiddenKeepsOrder | org.knime.core/src/eclipse/org/knime/core/node/util/filter/NameFilterPanel.java:979-994 | hiding leaves the order and the invalid lists alone, and only adds given names to the hidden set |
| NameFilter.HiddenRowsAreHidden | org.knime.core/src/eclipse/org/knime/core/node/util/filter/NameFilterPanel.java:979-994 | hiding only removes rows, and every element that lost a row is now hidden |
| NameFilter.InOrderSpec | org.knime.core/src/eclipse/org/knime/core/node/util/filter/NameFilterPanel.java:997-1013 | rebuilding a list from the master order keeps exactly the ordered elements in the set, in master order, without duplicates when the order has none |
| NameFilter.ResetHiddenSpec | org.knime.core/src/eclipse/org/knime/core/node/util/filter/NameFilterPanel.java:997-1013 | with nothing hidden nothing changes; otherwise exclude becomes the ordered elements that were hidden or excluded, and the hidden set is cleared |
| NameFilter.TransferSpec | org.knime.core/src/eclipse/org/knime/core/node/util/filter/NameFilterPanel.java:1261-1297 | moving invalid names between the two invalid lists loses and invents none, and only appends to the target list |
| NameFilter.TransferMovesNames | org.knime.core/src/eclipse/org/knime/core/node/util/filter/NameFilterPanel.java:1261-1297 | every moved element whose name was invalid on the source side ends up invalid on the target side |
| NameFilter.MovedOutSpec | org.knime.core/src/eclipse/org/knime/core/node/util/filter/NameFilterPanel.java:1261-1297 | `onRemIt`: the selected elements leave include; exclude becomes the selected and old excluded elements in master order; moved invalid includes become invalid excludes |
| NameFilter.MovedInSpec | org.knime.core/src/eclipse/org/knime/core/node/util/filter/NameFilterPanel.java:1336-1375 | `onAddIt`, the mirror image: the selected elements leave exclude, include becomes selected and old included elements in master order, and moved invalid excludes become invalid includes |
| NameFilter.AllMovedSpec | org.knime.core/src/eclipse/org/knime/core/node/util/filter/NameFilterPanel.java:1304-1327 | `onRemAll` empties include, sets exclude to the master order without hidden names, in order, and appends the invalid includes to the invalid excludes; `onAddAll` mirrors it |
| NameFilter.CleanFromShrinks | org.knime.core/src/eclipse/org/knime/core/node/util/filter/NameFilterPanel.java:1410-1436 | cleaning only removes rows and invalid names |
| NameFilter.CleanFromOrder | org.knime.core/src/eclipse/org/knime/core/node/util/filter/NameFilterPanel.java:1410-1436 | cleaning only removes from the master order, and only elements of the cleaned list |
| NameFilter.CleanFromValid | org.knime.core/src/eclipse/org/knime/core/node/util/filter/NameFilterPanel.java:1410-1436 | after cleaning no remaining row has an invalid name |
| NameFilter.CleanFromKeepsValid | org.knime.core/src/eclipse/org/knime/core/node/util/filter/NameFilterPanel.java:1410-1436 | cleaning keeps every row whose name is valid, with all its occurrences |
| NameFilter.CleanInvalidSpec | org.knime.core/src/eclipse/org/knime/core/node/util/filter/NameFilterPanel.java:1410-1436 | with enforce-exclusion only include is cleaned, otherwise only exclude; the other side is untouched; the cleaned list keeps its valid rows and loses its invalid ones; the exclude case is the mirror of the include case |
| NameFilter.CleanKeepsRowsAsWritten | org.knime.core/src/eclipse/org/knime/core/node/util/filter/NameFilterPanel.java:1417 | as written, `remove(i--)` never removes a row, however many iterations run |
| NameFilter.CleanStallsAsWritten | org.knime.core/src/eclipse/org/knime/core/node/util/filter/NameFilterPanel.java:1417 | as written, a row whose name is invalid through the other list keeps the loop at the same index forever |
| NameFilter.CleanDropsRowNamedByOther | org.knime.core/src/eclipse/org/knime/core/node/util/filter/NameFilterPanel.java:1410-1436 | with the corrected removal, a row whose name is invalid through the other list is dropped |
| NameFilter.IncludeListAsWrittenFails | org.knime.core/src/eclipse/org/knime/core/node/util/filter/NameFilterPanel.java:907-917 | as written, `getIncludeList` reads column 0, the boxed column index, so it fails on any non-empty include list |
| NameFilter.SelectionAsReadHasNoElements | org.knime.core/src/eclipse/org/knime/core/node/util/filter/NameFilterPanel.java:1263-1266 | reading the selected rows through `getValueAt(i, 0)` yields no element, only column indices or the "invalid" marker |
| NameFilter.OnRemItAsWrittenMovesNothing | org.knime.core/src/eclipse/org/knime/core/node/util/filter/NameFilterPanel.java:1259-1297 | as written, `onRemIt` ends as with an empty selection: a selected include that was not excluded stays out of the exclude list where the intended move puts it there, and without enforced exclusion the include list is unchanged |
| NameFilter.OnAddItAsWrittenMovesNothing | org.knime.core/src/eclipse/org/knime/core/node/util/filter/NameFilterPanel.java:1334-1375 | as written, `onAddIt` ends as with an empty selection: a selected exclude that was not included stays out of the include list, and with enforced exclusion the exclude list is unchanged |
| NameFilter.FreePrioritySpec | org.knime.core/src/eclipse/org/knime/core/node/util/filter/NameFilterPanel.java:1149-1153 | a free priority is used as given; a taken one is replaced by one above every stored priority; either way the result is free |
| NameFilter.LowestPrioritySpec | org.knime.core/src/eclipse/org/knime/core/node/util/filter/NameFilterPanel.java:1179-1188 | the entry `removeType` removes is the lowest-priority entry of that type, and there is none exactly when the type is not stored |
| NameFilter.AddThenRemoveType | org.knime.core/src/eclipse/org/knime/core/node/util/filter/NameFilterPanel.java:1148-1191 | adding a type that was not stored and then removing it restores the priority map |
| NameFilter.LastKey | org.knime.core/src/eclipse/org/knime/core/node/util/filter/NameFilterPanel.java:1150 | `lastKey` of a non-empty map is its largest priority |
| NameFilter.FirstEntryOf | org.knime.core/src/eclipse/org/knime/core/node/util/filter/NameFilterPanel.java:1179-1188 | the loop over the sorted entries finds the lowest-priority entry of the type |
| NameFilter.NameFilterPanel.constructor | org.knime.core/src/eclipse/org/knime/core/node/util/filter/NameFilterPanel.java:330-651 | a new panel has empty lists, no hidden or invalid names, and only the default type at priority 0 |
| NameFilter.NameFilterPanel.Update | org.knime.core/src/eclipse/org/knime/core/node/util/filter/NameFilterPanel.java:814-860 | the new list state is the update function of the old state and the arguments; the available names are recorded |
| NameFilter.NameFilterPanel.AddInvalid | org.knime.core/src/eclipse/org/knime/core/node/util/filter/NameFilterPanel.java:824-833 | the invalid-name loop yields their elements in order and adds them to the master order |
| NameFilter.NameFilterPanel.AddAvailable | org.knime.core/src/eclipse/org/knime/core/node/util/filter/NameFilterPanel.java:835-852 | the available-name loop yields the included and excluded elements and extends the order with every accepted name |
| NameFilter.NameFilterPanel.GetIncludeList | org.knime.core/src/eclipse/org/knime/core/node/util/filter/NameFilterPanel.java:907-917 | the include list's valid elements in order, read through the element as `getExcludeList` does |
| NameFilter.NameFilterPanel.GetExcludeList | org.knime.core/src/eclipse/org/knime/core/node/util/filter/NameFilterPanel.java:920-930 | the exclude list's valid elements in order |
| NameFilter.NameFilterPanel.HideNames | org.knime.core/src/eclipse/org/knime/core/node/util/filter/NameFilterPanel.java:979-994 | the new state is the old one with the given names hidden one after the other |
| NameFilter.NameFilterPanel.ResetHiding | org.knime.core/src/eclipse/org/knime/core/node/util/filter/NameFilterPanel.java:997-1013 | the new state is the reset function of the old one |
| NameFilter.NameFilterPanel.OnRemIt | org.knime.core/src/eclipse/org/knime/core/node/util/filter/NameFilterPanel.java:1259-1297 | with the selected elements themselves, the new state is those elements moved out, then cleaned of invalid values: the corrected reading of the selection |
| NameFilter.NameFilterPanel.OnAddIt | org.knime.core/src/eclipse/org/knime/core/node/util/filter/NameFilterPanel.java:1334-1375 | with the selected elements themselves, the new state is those elements moved in, then cleaned of invalid values: the corrected reading of the selection |
| NameFilter.NameFilterPanel.OnRemAll | org.knime.core/src/eclipse/org/knime/core/node/util/filter/NameFilterPanel.java:1304-1327 | the new state is everything moved out, cleaned only when include was non-empty |
| NameFilter.NameFilterPanel.OnAddAll | org.knime.core/src/eclipse/org/knime/core/node/util/filter/NameFilterPanel.java:1382-1405 | the new state is everything moved in, cleaned only when exclude was non-empty |
| NameFilter.NameFilterPanel.CleanInvalidValues | org.knime.core/src/eclipse/org/knime/core/node/util/filter/NameFilterPanel.java:1410-1436 | the new state is the cleaning function of the old one, on the side the enforce option selects |
| NameFilter.NameFilterPanel.CleanModel | org.knime.core/src/eclipse/org/knime/core/node/util/filter/NameFilterPanel.java:1410-1436 | the corrected cleaning loop leaves the table model, the invalid names and the order as the cleaning function says |
| NameFilter.NameFilterPanel.AddType | org.knime.core/src/eclipse/org/knime/core/node/util/filter/NameFilterPanel.java:1148-1167 | the priority map gains the type at its free priority; nothing else changes |
| NameFilter.NameFilterPanel.RemoveType | org.knime.core/src/eclipse/org/knime/core/node/util/filter/NameFilterPanel.java:1175-1191 | the lowest-priority entry of the type is removed; removing the current type resets the current type to the default |

## Left out

- Swing in `NameFilterPanel` and `MyTableModel` is not modelled: layout, buttons, listeners, focus,
  placeholders, regex row filtering, tool tips, repaint, change events and `fireTableDataChanged`.
- NameFilter.NameFilterPanel.OnRemIt: takes the selected elements, the corrected reading of the selection.
  The code as written reads the rows through `JTable.getValueAt(i, 0)`; that version is
  `NameFilter.OnRemItAsWritten` (and `OnAddItAsWritten`), see Findings. The row-to-model index conversion
  of the table's row sorter is not modelled: the rows are model rows.
- `NameFilterPanel.loadConfiguration`, `saveConfiguration`, `setNameFilter` and the pattern panel are not
  modelled: they move settings objects and Swing state, not list logic.
- `getInvalidIncludes`/`getInvalidExcludes`, `getIncludedNamesAsSet`, `getExcludedNamesAsSet`,
  `getAllValues`/`getAllValuesT` and the title and button setters are not modelled. They are read-outs or
  labels.
- `getTforName`, `getNameForT` and the `InputFilter` are abstract in the panel, so they are function-valued
  fields. The default type constant (`NameFilterConfiguration.TYPE`) is a constructor parameter.
- NameFilter.NameFilterPanel.AddType: `lastKey() + 1` is taken on unbounded integers. The `Integer` overflow
  at the largest priority is not modelled.
- FilterTableModel.MyTableModel.GetElementAt: it requires an index in range where `ArrayList.get` would
  throw. No modelled caller passes one outside.
- Distribution values are reals. NaN and negative infinity are not modelled: with them the majority
  index could stay -1. The `NumberFormat` text and the weight sum of `toStringRecursion` are left out, and
  the rendering keeps only the structure (indent, condition, majority class).
- The base-node stream framing (signature, condition, child count), child serialisation and the legacy
  `DecisionTreeNode*` classes are not modelled. They appear as opaque frames and values. `Load` receives
  the frame and the children.
- TreeNodeClassification.TreeModelDataInputStream.ReadDouble and `ReadInt`: the `UnexpectedToken` error exists only
  because the stream is a sequence of typed tokens. Java's `DataInputStream` has no types and would
  reinterpret the bytes instead; that reinterpretation is not modelled.
- TreeNodeClassification.CreateDecisionTreeNode: the Java exceptions are error values. A child without a
  condition (a `NullPointerException` in the Java code) is `MissingCondition`; an index error carries the
  offending index.
- TreeNodeClassification.ReadDistribution: it fills a sequence, not a `double[]` array, because the
  array version's slice invariants are too costly for the solver.
- `MutableInteger` is not part of this model. `inc()` is taken to increment and then return the new value.
- The PMML XML binding (`PMMLDocument`, `TreeModel`), `PMMLDataDictionaryTranslator` and `checkPMMLSpec`
  are not modelled. A document is a data dictionary plus a list of tree model elements.
- `TranslationUtil.isVectorFieldName` is not part of this model. It is a predicate parameter.
- The importer and exporter factories of the translator are function parameters. An importer failure,
  and an exception thrown by the exporter, are error values.
- TreeModelPMMLTranslator.Translator.InitializeFrom: the metadata mapper is always the one of module
  `MetaDataMapper`, the model of `AbstractMetaDataMapper.createMetaDataMapper`. Mappers that other
  subclasses of the translator might supply through the abstract `createMetaDataMapper` are not covered.
- `DataTableSpec.getUniqueColumnName` is not part of this model. It is a supplied function.
- Ungroup engine plumbing is not modelled: `ExecutionContext` progress and cancellation, containers,
  `RowInput`/`RowOutput`, the `HiLiteTranslator` object, the deprecated setters and the other `compute`
  overloads. Input and output are sequences of rows, and hilite is an optional map from key to key set.
- Ungroup.Compute: the collection iterators are a step counter over each collection's elements.
- Ungroup.Compute: the selected column indices must be in range and pairwise distinct. The source gets
  them from the spec lookup and never checks them itself.
- Ungroup.CreateClone: the Java `assert` on the number of new cells is a precondition.

## Findings

| source | as written | input that shows it | evidently intended | confidence | as-written member | corrected member |
|---|---|---|---|---|---|---|
| org.knime.core/src/eclipse/org/knime/core/node/util/filter/NameFilterPanel.java:911 | `getIncludeList` casts `m_inclMdl.getValueAt(i, 0)` to `T`, but `MyTableModel.getValueAt` returns the column index (an `Integer`) for column 0, so `getNameForT` gets an `Integer` | any include list with at least one element | read the element, as `getExcludeList` does with `getElementAt(i)` | not executed | NameFilter.IncludeListAsWrittenFails | NameFilter.NameFilterPanel.GetIncludeList |
| org.knime.core/src/eclipse/org/knime/core/node/util/filter/NameFilterPanel.java:1417 | `m_inclMdl.remove(i--)` (and line 1426 for exclude) calls `MyTableModel.remove(Object)` with a boxed index, which removes nothing while the index is rewound | enforce-exclusion on, include list `[a]` where the name of `a` is an invalid exclude: the row stays and the loop revisits index 0 forever | remove the row at index `i`, then revisit that index | not executed | NameFilter.CleanStallsAsWritten | NameFilter.NameFilterPanel.CleanModel |
| org.knime.core/src/eclipse/org/knime/core/node/util/filter/NameFilterPanel.java:1265 | `onRemIt` reads each selected row as `(T)m_inclTable.getValueAt(i, 0)` (and `onAddIt` as `(T)m_exclTable.getValueAt(i, 0)` at line 1340), which reaches `MyTableModel.getValueAt(row, 0)` and yields the boxed column index, so `removeAll` removes nothing and no element moves; the "move all" buttons take this path too whenever the table has a row sorter (lines 604-611, 626-633) | include list `[a]` with `a` in the order and not excluded, row 0 selected: after "remove" `a` is still not in the exclude list | read the selected element, as `getElementAt` would | not executed | NameFilter.OnRemItAsWrittenMovesNothing | NameFilter.NameFilterPanel.OnRemIt |
