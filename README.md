# sourcefilefixer in Dafny

The tool post-processes an obfuscated Java/Kotlin archive. Each class has a
`SourceFile` attribute, and the tool rewrites it so that it no longer leaks
the original (unobfuscated) name. This project models the two pieces of
logic at the core of that:

- **The rewrite heuristic and its patch.** `SourceFileFixer.NewSourceFile`
  computes the new attribute value from two inputs: the class's internal name
  (`com/a/b/Foo$Bar`) and the current value.
  - `.java` values become the outer short class name plus ".java".
  - `.kt` values become the short class name when it is at most 3 UTF-16 code units long (what Java's `length()` counts), and are kept otherwise.
  - Any other value becomes the short class name.

  `SourceFileFixer.VisitSourceFileAttribute` then overwrites the one
  UTF-8 constant-pool slot that the attribute points at. The constant pool is
  an `array<Constant>`. An index that is out of range or that holds a
  non-UTF-8 constant is an error outcome, not a precondition: the Java code
  throws in those cases.
- **The archive pipelines.** `DataEntryFactory.ReaderStages` and
  `DataEntryFactory.WriterStages` list the archive stages that
  `createDataEntryReader` / `createDataEntryWriter` wrap around the class
  reader and writer, innermost first.
  - A stage is `Unconditional(k)`: that level *is* an archive of kind `k`.
  - Or it is `Filtered(k)`: only entries whose name, or whose parent's name for the writer, has the extension of `k` are (un)packed.

  `Dispatch` routes an entry through such a list. It returns the outermost
  stage that accepts the entry, or None when the entry reaches the innermost
  consumer. `ReaderTable` / `WriterTable` are an independent, flat
  decision table of the pipelines, keyed by the archive kind that the name
  itself has.

`JavaString` holds the `java.lang.String` and `java.io.File` operations the
core uses:
- `EndsWith` (`endsWith`) is a predicate on a slice.
- `IndexOf` and `LastIndexOf` are recursive functions. Their own contracts state what the Java library promises.
- `Utf16Length` (`length()`) is recursive and defined by its body: one code unit per character, plus one more per supplementary character. Its contract and the lemma `Utf16LengthExtremes` give only its bounds and its two extremes.
- `FileName` (`getName`) takes the text after the last '/' of `StripTrailingSeparators(path)`, which is recursive. Neither has a contract of its own. Their properties are stated by the lemmas `FileNameShape` and `StripTrailingSeparatorsShape`.

Approach and notes:

- The suffix tests are case-sensitive, as `String.endsWith` is.
- `ExtensionMatcher` / `DataEntryParentFilter` are library code. Routing therefore takes the name matcher as a parameter `matches(name, extension)`.
- The code's Kotlin threshold is `length() <= 3`: at most 3 UTF-16 code units. The model counts code units with `JavaString.Utf16Length`, where a character outside the Basic Multilingual Plane counts twice.

## Model

| member | source | states |
|---|---|---|
| JavaString.EndsWith | src/com/github/netomi/sourcefilefixer/SourceFileFixer.java:49 | `endsWith`: the suffix is no longer than the string and equals its last characters (the same test at SourceFileFixer.java:60 and DataEntryFactory.java:29-31, 71-73) |
| JavaString.Utf16Length | src/com/github/netomi/sourcefilefixer/SourceFileFixer.java:64 | `length()` lies between the character count and twice it |
| JavaString.Utf16LengthExtremes | src/com/github/netomi/sourcefilefixer/SourceFileFixer.java:64 | `length()` equals the character count exactly when no character is supplementary, and twice it exactly when every character is |
| JavaString.IndexOf | src/com/github/netomi/sourcefilefixer/SourceFileFixer.java:53 | -1 exactly when the character is absent; otherwise a position holding it with no earlier occurrence |
| JavaString.LastIndexOf | src/com/github/netomi/sourcefilefixer/SourceFileFixer.java:58 | -1 exactly when the character is absent; otherwise a position holding it with no later occurrence |
| JavaString.IndexOfAt | src/com/github/netomi/sourcefilefixer/SourceFileFixer.java:53 | any first occurrence of the character is the index `indexOf` returns |
| JavaString.LastIndexOfAt | src/com/github/netomi/sourcefilefixer/SourceFileFixer.java:58 | any last occurrence of the character is the index `lastIndexOf` returns |
| JavaString.StripTrailingSeparators | src/com/github/netomi/sourcefilefixer/DataEntryFactory.java:69 | the path normalisation `File` applies before `getName`; its properties are stated by `StripTrailingSeparatorsShape` |
| JavaString.FileName | src/com/github/netomi/sourcefilefixer/DataEntryFactory.java:69 | `file.getName()`; its properties are stated by `FileNameShape` and `DataEntryFactory.FileNameSuffix` |
| JavaString.StripTrailingSeparatorsShape | src/com/github/netomi/sourcefilefixer/DataEntryFactory.java:69 | normalising a path removes exactly its trailing run of '/' and nothing else |
| JavaString.FileNameShape | src/com/github/netomi/sourcefilefixer/DataEntryFactory.java:69 | `getName` is the separator-free tail of the normalised path that starts right after a '/' (or at its start) |
| SourceFileFixer.NewSourceFile | src/com/github/netomi/sourcefilefixer/SourceFileFixer.java:44-72 | the new SourceFile value; its contract is stated branch by branch by `JavaRule`, `JavaRuleOuterName`, `KotlinRule`, `OtherRule`, `SuffixesExclusive` and `Idempotent` |
| SourceFileFixer.InternalShortClassName | src/com/github/netomi/sourcefilefixer/SourceFileFixer.java:47 | the short name has no '/', ends the internal name, and is preceded there by '/' or nothing |
| SourceFileFixer.ShortNameInPackage | src/com/github/netomi/sourcefilefixer/SourceFileFixer.java:47 | for `pkg/Name` with a '/'-free `Name`, the short class name is exactly `Name` |
| SourceFileFixer.OuterClassName | src/com/github/netomi/sourcefilefixer/SourceFileFixer.java:53-56 | the name is cut just before its first '$' (kept whole when it has none), so it contains no '$' |
| SourceFileFixer.JavaSuffixFromLastDot | src/com/github/netomi/sourcefilefixer/SourceFileFixer.java:58-59 | for a `.java` value, the last '.' is the one of the suffix, so `substring(suffixIndex)` is ".java" |
| SourceFileFixer.JavaSourceFile | src/com/github/netomi/sourcefilefixer/SourceFileFixer.java:49-59 | the `.java` branch yields the outer class name followed by ".java" |
| SourceFileFixer.JavaRule | src/com/github/netomi/sourcefilefixer/SourceFileFixer.java:49-59 | a `.java` value is rewritten to a name that ends in ".java" and contains no '$' |
| SourceFileFixer.JavaRuleOuterName | src/com/github/netomi/sourcefilefixer/SourceFileFixer.java:53-59 | a `.java` value becomes a prefix of the short class name followed by ".java": the whole short name, or the part before its first '$' |
| SourceFileFixer.TopLevelJavaClass | src/com/github/netomi/sourcefilefixer/SourceFileFixer.java:49-59 | a class without '$' in its short name gets exactly short name + ".java" |
| SourceFileFixer.InnerClassUsesOuterFile | src/com/github/netomi/sourcefilefixer/SourceFileFixer.java:50-56 | `pkg/Outer$Inner` with any `.java` value gets "Outer.java", the file of its outer class |
| SourceFileFixer.KotlinRule | src/com/github/netomi/sourcefilefixer/SourceFileFixer.java:60-68 | a `.kt` value becomes the short name (no suffix, '$' kept) when its UTF-16 length is at most 3, and is kept unchanged otherwise |
| SourceFileFixer.KotlinSupplementaryNameExample | src/com/github/netomi/sourcefilefixer/SourceFileFixer.java:64-67 | a class named by two supplementary characters (UTF-16 length 4) with "A.kt" keeps "A.kt" |
| SourceFileFixer.OtherRule | src/com/github/netomi/sourcefilefixer/SourceFileFixer.java:69-72 | a value ending in neither suffix becomes the full short class name, inner segment included |
| SourceFileFixer.SuffixesExclusive | src/com/github/netomi/sourcefilefixer/SourceFileFixer.java:49-69 | no value ends in both ".java" and ".kt", so exactly one of the three branches applies |
| SourceFileFixer.Idempotent | src/com/github/netomi/sourcefilefixer/SourceFileFixer.java:49-72 | rewriting an already rewritten value again gives the same value, when the short name does not itself end in ".java" or ".kt" |
| SourceFileFixer.KotlinLongNameExample | src/com/github/netomi/sourcefilefixer/SourceFileFixer.java:66-67 | `com/a/b/LongClassName` with "Somewhere.kt" keeps "Somewhere.kt" |
| SourceFileFixer.KotlinShortNameExample | src/com/github/netomi/sourcefilefixer/SourceFileFixer.java:64-65 | `com/a/b/X` with "Unrelated.kt" gets "X" |
| SourceFileFixer.OtherSuffixExample | src/com/github/netomi/sourcefilefixer/SourceFileFixer.java:69-72 | `com/Foo$Bar` with "Foo.scala" gets "Foo$Bar": the '$' segment is not stripped |
| SourceFileFixer.VisitSourceFileAttribute | src/com/github/netomi/sourcefilefixer/SourceFileFixer.java:43-75 | succeeds exactly when the index is in range and holds a UTF-8 constant; then that slot holds the rewritten value; no other slot changes, and on failure nothing changes |
| DataEntryFactory.ExtensionsExclusive | src/com/github/netomi/sourcefilefixer/DataEntryFactory.java:29-31 | no name ends with two different archive extensions |
| DataEntryFactory.OwnKind | src/com/github/netomi/sourcefilefixer/DataEntryFactory.java:71-73 | a name has kind `k` exactly when it ends with `k`'s extension, so at most one of isJar/isAar/isZip holds |
| DataEntryFactory.WrapStage | src/com/github/netomi/sourcefilefixer/DataEntryFactory.java:49-65 | the wrapping stage has the given kind and is unconditional exactly when the flag is set |
| DataEntryFactory.ReaderStages | src/com/github/netomi/sourcefilefixer/DataEntryFactory.java:26-47 | 1 to 3 stages in order jar, aar, zip; each unconditional exactly when the input ends with its extension; a shortened list ends with an unconditional stage |
| DataEntryFactory.WriterStages | src/com/github/netomi/sourcefilefixer/DataEntryFactory.java:67-85 | always 3 stages in order zip, aar, jar from the file outwards; each unconditional exactly when the file's base name ends with its extension |
| DataEntryFactory.ReaderAccepts | src/com/github/netomi/sourcefilefixer/DataEntryFactory.java:53-63 | an unconditional reader stage unpacks every entry; a filtered one only entries whose name matches its extension; the others go to the wrapped reader (routing through `Dispatch`, `ReaderUnpacksInput`, `ZipInputNesting`) |
| DataEntryFactory.WriterAccepts | src/com/github/netomi/sourcefilefixer/DataEntryFactory.java:91-101 | an unconditional writer stage packs every entry; a filtered one only entries whose parent's name matches its extension; the others go to the wrapped writer (routing through `Dispatch`, `WriterTopLevelEntry`) |
| DataEntryFactory.Dispatch | src/com/github/netomi/sourcefilefixer/DataEntryFactory.java:59-63 | the chosen stage accepts the entry and every stage outside it passes it on; None exactly when no stage accepts it |
| DataEntryFactory.ReaderDecisionTable | src/com/github/netomi/sourcefilefixer/DataEntryFactory.java:34-44 | the reader is `[U jar]`, `[F jar, U aar]`, `[F jar, F aar, U zip]` or `[F jar, F aar, F zip]` by the input's kind |
| DataEntryFactory.WriterDecisionTable | src/com/github/netomi/sourcefilefixer/DataEntryFactory.java:75-82 | the writer is the three stages zip, aar, jar with only the stage of the base name's kind (if any) unconditional |
| DataEntryFactory.ReaderSingleUnconditional | src/com/github/netomi/sourcefilefixer/DataEntryFactory.java:34-44 | every reader stage but the outermost is filtered; the outermost is unconditional exactly when the input has an archive kind, and is then of that kind |
| DataEntryFactory.ReaderUnpacksInput | src/com/github/netomi/sourcefilefixer/DataEntryFactory.java:53-56 | for a `.jar`/`.aar`/`.zip` input every entry is unpacked by the outermost stage, whatever its name |
| DataEntryFactory.ZipInputNesting | src/com/github/netomi/sourcefilefixer/DataEntryFactory.java:34-44 | inside a `.zip` input, matching `.aar` entries go to the aar stage, other matching `.jar` entries to the jar stage, the rest to the class reader; inside an `.aar` only `.jar` entries are unpacked |
| DataEntryFactory.FileNameSuffix | src/com/github/netomi/sourcefilefixer/DataEntryFactory.java:69 | the base name ends with an extension exactly when the normalised path does, so the directory part never decides a stage |
| DataEntryFactory.WriterTableTopLevel | src/com/github/netomi/sourcefilefixer/DataEntryFactory.java:93-101 | in the writer table, a parentless entry is packed by the stage of the output's kind, or by none when there is none |
| DataEntryFactory.WriterTopLevelEntry | src/com/github/netomi/sourcefilefixer/DataEntryFactory.java:93-101 | a parentless entry is packed by the unconditional stage of the output's kind, or reaches the output file directly when the base name has no archive extension |
| DataEntryFactory.TablesMirror | src/com/github/netomi/sourcefilefixer/DataEntryFactory.java:34-44 | the reader table from the class reader outward equals the writer table from the class writer inward; the remaining writer stages, next to the file, are filtered |
| DataEntryFactory.WriterMirrorsReader | src/com/github/netomi/sourcefilefixer/DataEntryFactory.java:77-79 | when input and output base name have the same archive kind, or neither has one: the reader's stages from the class reader outward are the writer's from the class writer inward, and the remaining writer stages, next to the file, are filtered |

## Left out

- `SourceFileFixer.execute` / `main` are left out. They are the two-pass pumping of entries through ProGuard's `FileSource`, `ClassReader`, `ClassPoolFiller`, `IdleRewriter` and `DataEntryCopier`. This is I/O over library classes.
  - Every exception there is caught and printed, not propagated.
- `visitAnyAttribute` (a no-op) and the attribute dispatch by `AllAttributeVisitor` are left out. The model begins at a SourceFile attribute's constant index.
- The codecs behind the stages are not modelled: `JarReader`, `JarWriter`, `ZipWriter`, `FixedFileWriter` and `ClassDataEntryWriter`. A stage is a label.
  - The `ClassDataEntryWriter` outermost and the `FixedFileWriter` innermost are implicit ends of the writer list.
- `ExtensionMatcher`, `DataEntryNameFilter` and `DataEntryParentFilter` are library code, and their exact matching (case-sensitivity included) is not modelled. Routing takes the matcher as a parameter. Only the routing shape is proved.
- `SourceFileFixer.InternalShortClassName`: `ClassUtil.internalShortClassName` is assumed to return the text after the last '/'. It is a library call whose code is not part of this model.
- `JavaString.FileName`: `java.io.File.getName` is modelled for Unix paths only. It strips trailing '/' and takes the text after the last '/'. Windows separators and other path normalisation are not modelled.
- SourceFileFixer.VisitSourceFileAttribute: the other constants and attributes of the class that refer to the patched slot are not modelled. `setString` changes the shared `Utf8Constant` object, so every such reference sees the new value too. For example, javac stores a string literal equal to the old source-file name in the same slot. "Every other slot is unchanged" is a statement about the array only, not a claim that nothing else in the class changes.
- The constant-pool index is a `nat` and characters are Dafny `char`. The 16-bit width of `u2sourceFileIndex` and the modified UTF-8 encoding of constants are not modelled.
- `SourceFileFixerTask` (the Gradle task that copies the input to a temporary name and back) is I/O and is not part of this model.
- `SourceFileFixer.InnerClassUsesOuterFile` states the inner-class case (`com/Foo$Bar` with `Foo.java` gives `Foo.java`) for every package, outer name and inner name, rather than as the one concrete instance.
