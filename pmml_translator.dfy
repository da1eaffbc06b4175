/**
 * The state of the tree-model PMML translator: importing the single `TreeModel` element of a PMML
 * document into a tree plus its metadata, and exporting a tree as a new `TreeModel` element while
 * keeping the exporter's last warning.
 *
 * The document is reduced to its data dictionary and its list of tree-model elements.  The importer and
 * the exporter are supplied as functions; the metadata mapper is the one of module `MetaDataMapper`.
 */
module TreeModelPMMLTranslator {
  import opened Outcomes
  import MetaDataMapper

  /** A `TreeModel` element of a PMML document, kept opaque. */
  datatype TreeModelElement = TreeModelElement(content: string)

  /** The PMML port spec handed to the exporter, kept opaque. */
  datatype PortObjectSpec = PortObjectSpec(content: string)

  /** What the exporter produces: the element it writes, the schema type it returns, and its warning; or,
      when it throws, the element as far as it got written and the exception's message. */
  datatype ExportOutcome =
    | Exported(element: TreeModelElement, schemaType: string, warning: Option<string>)
    | ExportFailed(element: TreeModelElement, message: string)

  datatype TranslatorError =
    | SingleTreesOnly                            // the document holds more than one tree model
    | NoTreeModels                               // the document holds no tree model
    | MapperFailure(error: MetaDataMapper.MapperError)
    | ImportFailure(message: string)

  /** The part of a PMML document the translator reads and writes. */
  class PmmlDocument {
    var dataDictionary: seq<MetaDataMapper.ColumnSpec>
    var treeModels: seq<TreeModelElement>

    constructor (dataDictionary: seq<MetaDataMapper.ColumnSpec>, treeModels: seq<TreeModelElement>)
      ensures this.dataDictionary == dataDictionary && this.treeModels == treeModels
    {
      this.dataDictionary := dataDictionary;
      this.treeModels := treeModels;
    }

    /** `addNewTreeModel`, with the element the exporter then fills in. */
    method AddNewTreeModel(element: TreeModelElement)
      modifies this
      ensures treeModels == old(treeModels) + [element]
      ensures dataDictionary == old(dataDictionary)
    {
      treeModels := treeModels + [element];
    }
  }

  /** The warning kept after an export: the exporter's warning if it reports one, the previous one
      otherwise. */
  function NextWarning(previous: Option<string>, reported: Option<string>): Option<string>
  {
    if reported.Some? then reported else previous
  }

  /** The warning kept after a series of exports reporting `reported`, in order. */
  function WarningAfter(previous: Option<string>, reported: seq<Option<string>>): Option<string>
  {
    if reported == [] then previous
    else NextWarning(WarningAfter(previous, reported[..|reported| - 1]), reported[|reported| - 1])
  }

  /** An export without a warning keeps the stored warning; a reported warning replaces it. */
  lemma NextWarningKeepsOrReplaces(previous: Option<string>, reported: Option<string>)
    ensures reported.None? ==> NextWarning(previous, reported) == previous
    ensures reported.Some? ==> NextWarning(previous, reported) == reported
    ensures NextWarning(previous, reported).Some? <==> previous.Some? || reported.Some?
  {
  }

  /** After a series of exports the stored warning is the last one reported, or the initial one when no
      export reported any: a warning once stored is never cleared. */
  lemma {:induction false} LastReportedWarningWins(previous: Option<string>, reported: seq<Option<string>>)
    ensures (forall i :: 0 <= i < |reported| ==> reported[i].None?) ==> WarningAfter(previous, reported) == previous
    ensures forall i :: 0 <= i < |reported| && reported[i].Some? &&
                        (forall j :: i < j < |reported| ==> reported[j].None?) ==>
              WarningAfter(previous, reported) == reported[i]
    ensures previous.Some? ==> WarningAfter(previous, reported).Some?
  {
    if reported != [] {
      var n := |reported| - 1;
      var prefix := reported[..n];
      LastReportedWarningWins(previous, prefix);
      forall i | 0 <= i < |reported| && reported[i].Some? && (forall j :: i < j < |reported| ==> reported[j].None?)
        ensures WarningAfter(previous, reported) == reported[i]
      {
        if i < n {
          assert prefix[i] == reported[i];
          assert forall j :: i < j < n ==> prefix[j] == reported[j];
        }
      }
      if forall i :: 0 <= i < |reported| ==> reported[i].None? {
        assert forall i :: 0 <= i < n ==> prefix[i] == reported[i];
      }
    }
  }

  /** The translator's fields, with the abstract factories supplied as functions: `importFromPmml` is the
      importer the mapper configures, `writeModelToPmml` the exporter of the current tree. */
  class Translator<Tree> {
    var treeModel: Option<Tree>
    var treeMetaData: Option<MetaDataMapper.TreeMetaData>
    var warning: Option<string>
    const isVectorFieldName: string -> bool
    const importFromPmml: (MetaDataMapper.Mapper, TreeModelElement) -> Result<Tree, string>
    const writeModelToPmml: (Option<Tree>, PortObjectSpec) -> ExportOutcome

    /** The constructor taking a tree to export. */
    constructor FromTree(tree: Tree, isVectorFieldName: string -> bool,
                         importFromPmml: (MetaDataMapper.Mapper, TreeModelElement) -> Result<Tree, string>,
                         writeModelToPmml: (Option<Tree>, PortObjectSpec) -> ExportOutcome)
      ensures GetTree() == Some(tree) && GetTreeMetaData().None? && !HasWarning()
      ensures this.isVectorFieldName == isVectorFieldName && this.importFromPmml == importFromPmml
      ensures this.writeModelToPmml == writeModelToPmml
    {
      treeModel := Some(tree);
      treeMetaData := None;
      warning := None;
      this.isVectorFieldName := isVectorFieldName;
      this.importFromPmml := importFromPmml;
      this.writeModelToPmml := writeModelToPmml;
    }

    /** The constructor for a translator that is to import. */
    constructor (isVectorFieldName: string -> bool,
                 importFromPmml: (MetaDataMapper.Mapper, TreeModelElement) -> Result<Tree, string>,
                 writeModelToPmml: (Option<Tree>, PortObjectSpec) -> ExportOutcome)
      ensures GetTree().None? && GetTreeMetaData().None? && !HasWarning()
      ensures this.isVectorFieldName == isVectorFieldName && this.importFromPmml == importFromPmml
      ensures this.writeModelToPmml == writeModelToPmml
    {
      treeModel := None;
      treeMetaData := None;
      warning := None;
      this.isVectorFieldName := isVectorFieldName;
      this.importFromPmml := importFromPmml;
      this.writeModelToPmml := writeModelToPmml;
    }

    /** What `initializeFrom` computes from a document: both count checks come first, then the mapper,
        then the import of the single tree model and the mapper's tree metadata. */
    function Import(dictionary: seq<MetaDataMapper.ColumnSpec>, trees: seq<TreeModelElement>)
      : Result<(Tree, MetaDataMapper.TreeMetaData), TranslatorError>
    {
      if |trees| > 1 then Err(SingleTreesOnly)
      else if |trees| == 0 then Err(NoTreeModels)
      else match MetaDataMapper.NewMapper(dictionary, isVectorFieldName)
        case Err(e) => Err(MapperFailure(e))
        case Ok(mapper) =>
          match importFromPmml(mapper, trees[0])
          case Err(message) => Err(ImportFailure(message))
          case Ok(tree) => Ok((tree, MetaDataMapper.GetTreeMetaData(mapper)))
    }

    /** Import accepts exactly one tree model; on success the tree is the import of that element and the
        metadata is the mapper's, built from a non-empty dictionary whose attribute columns all classify. */
    lemma ImportNeedsExactlyOneTree(dictionary: seq<MetaDataMapper.ColumnSpec>, trees: seq<TreeModelElement>)
      ensures |trees| > 1 ==> Import(dictionary, trees) == Err(SingleTreesOnly)
      ensures |trees| == 0 ==> Import(dictionary, trees) == Err(NoTreeModels)
      ensures Import(dictionary, trees).Ok? ==>
                && |trees| == 1
                && MetaDataMapper.NewMapper(dictionary, isVectorFieldName).Ok?
                && var mapper := MetaDataMapper.NewMapper(dictionary, isVectorFieldName).value;
                   && importFromPmml(mapper, trees[0]) == Ok(Import(dictionary, trees).value.0)
                   && Import(dictionary, trees).value.1 == MetaDataMapper.GetTreeMetaData(mapper)
                   && |dictionary| > 0
                   && forall i :: 0 <= i < |dictionary| - 1 ==>
                        MetaDataMapper.ColumnOutcome(dictionary[i], i, isVectorFieldName).Ok?
    {
      MetaDataMapper.NewMapperSucceeds(dictionary, isVectorFieldName);
    }

    /** `initializeFrom`: on success the tree and its metadata are replaced; a rejected document leaves
        every field as it was. */
    method InitializeFrom(doc: PmmlDocument) returns (error: Option<TranslatorError>)
      modifies this
      ensures match Import(doc.dataDictionary, doc.treeModels)
              case Ok((tree, meta)) =>
                error.None? && GetTree() == Some(tree) && GetTreeMetaData() == Some(meta)
                && GetWarning() == old(GetWarning())
              case Err(e) =>
                error == Some(e) && unchanged(this)
    {
      var trees := doc.treeModels;
      if |trees| > 1 {
        return Some(SingleTreesOnly);
      } else if |trees| == 0 {
        return Some(NoTreeModels);
      }
      var metaDataMapper := MetaDataMapper.NewMapper(doc.dataDictionary, isVectorFieldName);
      if metaDataMapper.Err? {
        return Some(MapperFailure(metaDataMapper.error));
      }
      var imported := importFromPmml(metaDataMapper.value, trees[0]);
      if imported.Err? {
        return Some(ImportFailure(imported.error));
      }
      treeModel := Some(imported.value);
      treeMetaData := Some(MetaDataMapper.GetTreeMetaData(metaDataMapper.value));
      error := None;
    }

    /** `exportTo`: appends exactly one tree-model element, which the exporter then writes, and replaces the
        warning only when the exporter reports one.  The element is added before the exporter runs, so an
        exporter that throws leaves the element as far as it got written and the warning as it was; the
        exception comes back as the error. */
    method ExportTo(doc: PmmlDocument, spec: PortObjectSpec) returns (schemaType: Result<string, string>)
      modifies this, doc
      ensures var outcome := writeModelToPmml(old(GetTree()), spec);
              && doc.treeModels == old(doc.treeModels) + [outcome.element]
              && doc.dataDictionary == old(doc.dataDictionary)
              && GetTree() == old(GetTree()) && GetTreeMetaData() == old(GetTreeMetaData())
              && match outcome
                 case Exported(_, st, reported) =>
                   schemaType == Ok(st) && GetWarning() == NextWarning(old(GetWarning()), reported)
                 case ExportFailed(_, message) =>
                   schemaType == Err(message) && GetWarning() == old(GetWarning())
    {
      var outcome := writeModelToPmml(treeModel, spec);
      doc.AddNewTreeModel(outcome.element);
      if outcome.ExportFailed? {
        return Err(outcome.message);
      }
      if outcome.warning.Some? {
        warning := outcome.warning;
      }
      schemaType := Ok(outcome.schemaType);
    }

    function GetTree(): (r: Option<Tree>)
      reads this
      ensures r == treeModel
    {
      treeModel
    }

    function GetTreeMetaData(): (r: Option<MetaDataMapper.TreeMetaData>)
      reads this
      ensures r == treeMetaData
    {
      treeMetaData
    }

    /** `hasWarning`: whether a warning string is stored. */
    function HasWarning(): (b: bool)
      reads this
      ensures b <==> GetWarning().Some?
    {
      warning.Some?
    }

    /** `getWarning`: the stored warning, absent when there is none. */
    function GetWarning(): (r: Option<string>)
      reads this
      ensures r == warning
    {
      warning
    }
  }
}
