/**
  `DataEntryFactory`: how the reader and writer pipelines are assembled from
  archive stages according to the input or output file name. Each stage is
  a JarReader/JarWriter, either on its own (the level is that archive) or
  behind a filter on the entry's extension. The library decorators that do
  the unpacking and packing are represented by the stages only.
 */
module DataEntryFactory {
  import opened Wrappers
  import opened JavaString

  /** The archive formats the factory knows, each recognised by its extension. */
  datatype ArchiveKind = Jar | Aar | Zip {
    function Extension(): string {
      match this
      case Jar => ".jar"
      case Aar => ".aar"
      case Zip => ".zip"
    }
  }

  /**
    One archive level of a pipeline. `Unconditional(k)`: every entry reaching
    it is (un)packed as an archive of kind `k`. `Filtered(k)`: only entries the
    extension filter for `k` accepts are; the others go to the wrapped stage.
   */
  datatype Stage = Unconditional(kind: ArchiveKind) | Filtered(kind: ArchiveKind)

  /** Order of the reader stages, innermost (next to the class reader) first. */
  const ReaderOrder: seq<ArchiveKind> := [Jar, Aar, Zip]
  /** Order of the writer stages, innermost (next to the output file) first. */
  const WriterOrder: seq<ArchiveKind> := [Zip, Aar, Jar]

  /** No name ends with two different archive extensions. */
  lemma ExtensionsExclusive(name: string, k1: ArchiveKind, k2: ArchiveKind)
    ensures EndsWith(name, k1.Extension()) && EndsWith(name, k2.Extension()) ==> k1 == k2
  {
    if EndsWith(name, k1.Extension()) && EndsWith(name, k2.Extension()) {
      assert k1.Extension() == name[|name| - 4..] == k2.Extension();
    }
  }

  /** The archive kind a name denotes by its extension, if any (at most one of `isJar`, `isAar`, `isZip`). */
  function OwnKind(name: string): (r: Option<ArchiveKind>)
    ensures forall k: ArchiveKind :: EndsWith(name, k.Extension()) <==> r == Some(k)
  {
    ExtensionsExclusive(name, Jar, Aar);
    ExtensionsExclusive(name, Jar, Zip);
    ExtensionsExclusive(name, Aar, Zip);
    if EndsWith(name, Jar.Extension()) then Some(Jar)
    else if EndsWith(name, Aar.Extension()) then Some(Aar)
    else if EndsWith(name, Zip.Extension()) then Some(Zip)
    else None
  }

  /** `wrapInJarReader` / `wrapInJarWriter`: the stage put around the pipeline built so far. */
  function WrapStage(isOwnKind: bool, kind: ArchiveKind): (s: Stage)
    ensures s.kind == kind && (s.Unconditional? <==> isOwnKind)
  {
    if isOwnKind then Unconditional(kind) else Filtered(kind)
  }

  /**
    `createDataEntryReader(input, …)`: the stages wrapped around the class
    reader, innermost first. Wrapping stops after the first kind the input
    itself has, since that level is the input archive.
   */
  function ReaderStages(input: string): (stages: seq<Stage>)
    ensures 1 <= |stages| <= |ReaderOrder|
    ensures forall i :: 0 <= i < |stages| ==> stages[i].kind == ReaderOrder[i]
    ensures forall i :: 0 <= i < |stages| ==>
              (stages[i].Unconditional? <==> EndsWith(input, stages[i].kind.Extension()))
    ensures |stages| < |ReaderOrder| ==> stages[|stages| - 1].Unconditional?
  {
    var isJar := EndsWith(input, Jar.Extension());
    var isAar := EndsWith(input, Aar.Extension());
    var isZip := EndsWith(input, Zip.Extension());
    var jarLevel := [WrapStage(isJar, Jar)];
    if isJar then jarLevel
    else
      var aarLevel := jarLevel + [WrapStage(isAar, Aar)];
      if isAar then aarLevel
      else aarLevel + [WrapStage(isZip, Zip)]
  }

  /**
    `createDataEntryWriter(file, …)`: the stages between the output file and
    the class writer, innermost first. All three are always present; only their
    kind depends on the file's own name (not its directory).
   */
  function WriterStages(outputPath: string): (stages: seq<Stage>)
    ensures |stages| == |WriterOrder|
    ensures forall i :: 0 <= i < |stages| ==> stages[i].kind == WriterOrder[i]
    ensures forall i :: 0 <= i < |stages| ==>
              (stages[i].Unconditional? <==> EndsWith(FileName(outputPath), stages[i].kind.Extension()))
  {
    var name := FileName(outputPath);
    var isJar := EndsWith(name, Jar.Extension());
    var isAar := EndsWith(name, Aar.Extension());
    var isZip := EndsWith(name, Zip.Extension());
    [WrapStage(isZip, Zip)] + [WrapStage(isAar, Aar)] + [WrapStage(isJar, Jar)]
  }

  // ---------------------------------------------------------------------------
  // Routing an entry through a pipeline

  /**
    Whether a reader stage hands the entry named `entryName` to its JarReader
    (to be unpacked); otherwise the entry goes to the wrapped reader untouched.
    `matches(name, extension)` stands for the library's ExtensionMatcher.
   */
  function ReaderAccepts(stage: Stage, entryName: string, matches: (string, string) -> bool): bool {
    stage.Unconditional? || matches(entryName, stage.kind.Extension())
  }

  /**
    Whether a writer stage hands an entry whose parent archive is named
    `parentName` (None for a top-level entry) to its JarWriter, packing it into
    that parent; otherwise the entry goes to the wrapped writer untouched.
   */
  function WriterAccepts(stage: Stage, parentName: Option<string>, matches: (string, string) -> bool): bool {
    stage.Unconditional? || (parentName.Some? && matches(parentName.value, stage.kind.Extension()))
  }

  /**
    The stage that takes an entry entering the pipeline `stages` (listed
    innermost first, so the entry meets the last one first): the outermost
    stage that accepts it, or None when every stage passes it on and it reaches
    the innermost consumer. Entries of an archive unpacked at position `i`
    continue into the pipeline `stages[..i]`.
   */
  function Dispatch(stages: seq<Stage>, accepts: Stage -> bool): (r: Option<nat>)
    ensures r.Some? ==> r.value < |stages| && accepts(stages[r.value])
    ensures r.Some? ==> forall j :: r.value < j < |stages| ==> !accepts(stages[j])
    ensures r.None? <==> forall j :: 0 <= j < |stages| ==> !accepts(stages[j])
  {
    if |stages| == 0 then None
    else if accepts(stages[|stages| - 1]) then Some(|stages| - 1)
    else Dispatch(stages[..|stages| - 1], accepts)
  }

  // ---------------------------------------------------------------------------
  // The pipelines as flat decision tables

  /** The reader stages, innermost first, keyed by the input's own kind. */
  function ReaderTable(kind: Option<ArchiveKind>): seq<Stage> {
    match kind
    case Some(Jar) => [Unconditional(Jar)]
    case Some(Aar) => [Filtered(Jar), Unconditional(Aar)]
    case Some(Zip) => [Filtered(Jar), Filtered(Aar), Unconditional(Zip)]
    case None => [Filtered(Jar), Filtered(Aar), Filtered(Zip)]
  }

  /** The writer stages, innermost first, keyed by the output's own kind. */
  function WriterTable(kind: Option<ArchiveKind>): seq<Stage> {
    match kind
    case Some(Jar) => [Filtered(Zip), Filtered(Aar), Unconditional(Jar)]
    case Some(Aar) => [Filtered(Zip), Unconditional(Aar), Filtered(Jar)]
    case Some(Zip) => [Unconditional(Zip), Filtered(Aar), Filtered(Jar)]
    case None => [Filtered(Zip), Filtered(Aar), Filtered(Jar)]
  }

  /** `createDataEntryReader` builds exactly the reader table for the input's kind. */
  lemma ReaderDecisionTable(input: string)
    ensures ReaderStages(input) == ReaderTable(OwnKind(input))
  {
    var stages := ReaderStages(input);
    var kind := OwnKind(input);
    assert forall k: ArchiveKind :: EndsWith(input, k.Extension()) <==> kind == Some(k);
    if |stages| == 1 {
      assert stages == [stages[0]];
    } else if |stages| == 2 {
      assert stages == [stages[0], stages[1]];
    } else {
      assert stages == [stages[0], stages[1], stages[2]];
    }
  }

  /** `createDataEntryWriter` builds exactly the writer table for the output file name's kind. */
  lemma WriterDecisionTable(outputPath: string)
    ensures WriterStages(outputPath) == WriterTable(OwnKind(FileName(outputPath)))
  {
    var stages := WriterStages(outputPath);
    var kind := OwnKind(FileName(outputPath));
    assert forall k: ArchiveKind :: EndsWith(FileName(outputPath), k.Extension()) <==> kind == Some(k);
    assert stages == [stages[0], stages[1], stages[2]];
  }

  // ---------------------------------------------------------------------------
  // Properties of the pipelines

  /**
    A reader has at most one unconditional stage, and it is the outermost one,
    of the input's own kind: the input archive itself. Every stage below is filtered.
   */
  lemma ReaderSingleUnconditional(input: string)
    ensures var stages := ReaderStages(input);
            forall i :: 0 <= i < |stages| - 1 ==> stages[i].Filtered?
    ensures var stages := ReaderStages(input);
            OwnKind(input).Some? <==> stages[|stages| - 1].Unconditional?
    ensures var stages := ReaderStages(input);
            OwnKind(input).Some? ==> stages[|stages| - 1].kind == OwnKind(input).value
  {
    ReaderDecisionTable(input);
  }

  /** A reader unpacks the input archive itself at its outermost stage, whatever the entry's name. */
  lemma ReaderUnpacksInput(input: string, entryName: string, matches: (string, string) -> bool)
    requires OwnKind(input).Some?
    ensures var stages := ReaderStages(input);
            Dispatch(stages, s => ReaderAccepts(s, entryName, matches)) == Some(|stages| - 1)
  {
    ReaderDecisionTable(input);
  }

  /**
    Inside a `.zip` input, nested `.aar` and `.jar` entries are unpacked by
    their own stages, and the `.jar` entries of a nested `.aar` too; an entry
    matching no extension reaches the class reader.
   */
  lemma ZipInputNesting(input: string, entryName: string, matches: (string, string) -> bool)
    requires OwnKind(input) == Some(Zip)
    ensures var inner := ReaderStages(input)[..2];
            matches(entryName, Aar.Extension()) ==>
              Dispatch(inner, s => ReaderAccepts(s, entryName, matches)) == Some(1)
    ensures var inner := ReaderStages(input)[..2];
            !matches(entryName, Aar.Extension()) && matches(entryName, Jar.Extension()) ==>
              Dispatch(inner, s => ReaderAccepts(s, entryName, matches)) == Some(0)
    ensures var inner := ReaderStages(input)[..2];
            !matches(entryName, Aar.Extension()) && !matches(entryName, Jar.Extension()) ==>
              Dispatch(inner, s => ReaderAccepts(s, entryName, matches)) == None
    ensures var inAar := ReaderStages(input)[..1];
            Dispatch(inAar, s => ReaderAccepts(s, entryName, matches)) ==
              if matches(entryName, Jar.Extension()) then Some(0) else None
  {
    ReaderDecisionTable(input);
    var inner := ReaderStages(input)[..2];
    assert inner == [Filtered(Jar), Filtered(Aar)];
    assert inner[..1] == [Filtered(Jar)];
  }

  /**
    The base-name test of the writer agrees with an extension test on the whole
    normalised path: a directory component never makes a stage unconditional.
   */
  lemma FileNameSuffix(outputPath: string, suffix: string)
    requires Separator !in suffix
    ensures EndsWith(FileName(outputPath), suffix) <==> EndsWith(StripTrailingSeparators(outputPath), suffix)
  {
    FileNameShape(outputPath);
    SuffixOfLastName(StripTrailingSeparators(outputPath), FileName(outputPath), suffix, Separator);
  }

  /**
    A top-level entry (one with no parent) is packed by the stage of the
    output's own kind, or reaches the output file directly when the output
    name has no archive extension.
   */
  lemma WriterTopLevelEntry(outputPath: string, matches: (string, string) -> bool)
    ensures var stages := WriterStages(outputPath);
            var r := Dispatch(stages, s => WriterAccepts(s, None, matches));
            match OwnKind(FileName(outputPath))
            case Some(k) => r.Some? && stages[r.value] == Unconditional(k)
            case None => r == None
  {
    WriterDecisionTable(outputPath);
    WriterTableTopLevel(OwnKind(FileName(outputPath)), matches);
  }

  /** `WriterTopLevelEntry` on the table. */
  lemma WriterTableTopLevel(kind: Option<ArchiveKind>, matches: (string, string) -> bool)
    ensures var stages := WriterTable(kind);
            var r := Dispatch(stages, s => WriterAccepts(s, None, matches));
            match kind
            case Some(k) => r.Some? && stages[r.value] == Unconditional(k)
            case None => r == None
  {
    var stages := WriterTable(kind);
    match kind
    case Some(Jar) => assert WriterAccepts(stages[2], None, matches);
    case Some(Aar) => assert WriterAccepts(stages[1], None, matches);
    case Some(Zip) => assert WriterAccepts(stages[0], None, matches);
    case None =>
  }

  /**
    When input and output name the same kind of archive (or neither names
    one), as for a temporary copy of the output, the writer mirrors the
    reader: the reader's stages from the class reader outward are the
    writer's from the class writer inward, and the remaining writer stages,
    next to the file, are all filtered.
   */
  lemma WriterMirrorsReader(input: string, outputPath: string)
    requires OwnKind(input) == OwnKind(FileName(outputPath))
    ensures var reader := ReaderStages(input);
            var writer := WriterStages(outputPath);
            forall i :: 0 <= i < |reader| ==> reader[i] == writer[|writer| - 1 - i]
    ensures var reader := ReaderStages(input);
            var writer := WriterStages(outputPath);
            forall i :: 0 <= i < |writer| - |reader| ==> writer[i].Filtered?
  {
    ReaderDecisionTable(input);
    WriterDecisionTable(outputPath);
    TablesMirror(OwnKind(input));
  }

  /** `WriterMirrorsReader` on the tables. */
  lemma TablesMirror(kind: Option<ArchiveKind>)
    ensures var reader := ReaderTable(kind);
            var writer := WriterTable(kind);
            && (forall i :: 0 <= i < |reader| ==> reader[i] == writer[|writer| - 1 - i])
            && (forall i :: 0 <= i < |writer| - |reader| ==> writer[i].Filtered?)
  {
  }
}
