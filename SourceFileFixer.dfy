/**
  The SourceFile rewrite of `SourceFileFixer.AttributeFixer`: the heuristic
  that derives a new source-file name from a class's internal name, and the
  in-place patch of the constant-pool entry that holds it.
 */
module SourceFileFixer {
  import opened Wrappers
  import opened JavaString

  /** `TypeConstants.INNER_CLASS_SEPARATOR`. */
  const InnerClassSeparator: char := '$'
  /** The package separator of internal class names (`com/example/Foo`). */
  const PackageSeparator: char := '/'
  const JavaSuffix: string := ".java"
  const KotlinSuffix: string := ".kt"
  /** Kotlin classes whose short name is at most this many UTF-16 code units long are taken to be obfuscated. */
  const ObfuscatedNameMaxLength: nat := 3

  /**
    `ClassUtil.internalShortClassName`: the part of an internal class name
    after its last package separator (the whole name for the default package).
   */
  function InternalShortClassName(internalName: string): (r: string)
    ensures PackageSeparator !in r
    ensures EndsWith(internalName, r)
    ensures |r| == |internalName| || internalName[|internalName| - |r| - 1] == PackageSeparator
  {
    internalName[LastIndexOf(internalName, PackageSeparator) + 1..]
  }

  /**
    The short name truncated before its first inner-class separator: the
    name of the outermost class, whose source file holds all its inner classes.
   */
  function OuterClassName(shortClassName: string): (r: string)
    ensures InnerClassSeparator !in r
    ensures |r| <= |shortClassName| && r == shortClassName[..|r|]
    ensures |r| == |shortClassName| || shortClassName[|r|] == InnerClassSeparator
  {
    var innerClassSeparatorIndex := IndexOf(shortClassName, InnerClassSeparator);
    if innerClassSeparatorIndex != -1 then shortClassName[..innerClassSeparatorIndex]
    else shortClassName
  }

  /** The text from the last '.' of a `.java` name onwards is exactly ".java". */
  lemma JavaSuffixFromLastDot(sourceFile: string)
    requires EndsWith(sourceFile, JavaSuffix)
    ensures LastIndexOf(sourceFile, '.') == |sourceFile| - |JavaSuffix|
    ensures sourceFile[LastIndexOf(sourceFile, '.')..] == JavaSuffix
  {
    var n := |sourceFile| - |JavaSuffix|;
    assert sourceFile[n] == sourceFile[n..][0] == '.';
    assert sourceFile[n + 1..] == sourceFile[n..][1..] == "java";
    LastIndexOfAt(sourceFile, '.', n);
  }

  /**
    The `.java` case: Java classes live in a source file named after their
    outermost class, and the original suffix (from the last '.') is kept;
    for a `.java` name that suffix is ".java".
   */
  function JavaSourceFile(shortClassName: string, sourceFile: string): (r: string)
    requires EndsWith(sourceFile, JavaSuffix)
    ensures r == OuterClassName(shortClassName) + JavaSuffix
  {
    JavaSuffixFromLastDot(sourceFile);
    var suffixIndex := LastIndexOf(sourceFile, '.');
    OuterClassName(shortClassName) + sourceFile[suffixIndex..]
  }

  /**
    The new value of the SourceFile attribute of class `className` whose
    current value is `sourceFile`, computed as `visitSourceFileAttribute` does.
   */
  function NewSourceFile(className: string, sourceFile: string): string {
    var shortClassName := InternalShortClassName(className);
    if EndsWith(sourceFile, JavaSuffix) then
      JavaSourceFile(shortClassName, sourceFile)
    else if EndsWith(sourceFile, KotlinSuffix) then
      // Kotlin source files need not match class names: only rename short, obfuscated ones.
      if Utf16Length(shortClassName) <= ObfuscatedNameMaxLength then shortClassName else sourceFile
    else
      shortClassName
  }

  // ---------------------------------------------------------------------------
  // Properties of the heuristic

  /** No name ends with both suffixes, so the order of the two tests only matters for precedence. */
  lemma SuffixesExclusive(sourceFile: string)
    ensures !(EndsWith(sourceFile, JavaSuffix) && EndsWith(sourceFile, KotlinSuffix))
  {
    EndsWithLast(sourceFile, JavaSuffix);
    EndsWithLast(sourceFile, KotlinSuffix);
  }

  /** The two halves of a concatenation. */
  lemma ConcatParts(prefix: string, suffix: string)
    ensures (prefix + suffix)[..|prefix|] == prefix
    ensures EndsWith(prefix + suffix, suffix)
  {
    assert (prefix + suffix)[|prefix|..] == suffix;
  }

  /** `.java` rule: the result always ends in ".java" and never contains '$'. */
  lemma JavaRule(className: string, sourceFile: string)
    requires EndsWith(sourceFile, JavaSuffix)
    ensures EndsWith(NewSourceFile(className, sourceFile), JavaSuffix)
    ensures InnerClassSeparator !in NewSourceFile(className, sourceFile)
  {
    var outerName := OuterClassName(InternalShortClassName(className));
    ConcatParts(outerName, JavaSuffix);
    assert InnerClassSeparator !in JavaSuffix;
  }

  /**
    `.java` rule: the result is the short class name cut just before its first
    '$' (the whole short name when it has none), followed by ".java".
   */
  lemma JavaRuleOuterName(className: string, sourceFile: string)
    requires EndsWith(sourceFile, JavaSuffix)
    ensures var shortName := InternalShortClassName(className);
            var n := |NewSourceFile(className, sourceFile)| - |JavaSuffix|;
            && 0 <= n <= |shortName|
            && NewSourceFile(className, sourceFile) == shortName[..n] + JavaSuffix
            && (n == |shortName| || shortName[n] == InnerClassSeparator)
  {
  }

  /** A top-level class from a `.java` file gets its own short name plus ".java". */
  lemma TopLevelJavaClass(className: string, sourceFile: string)
    requires EndsWith(sourceFile, JavaSuffix)
    requires InnerClassSeparator !in InternalShortClassName(className)
    ensures NewSourceFile(className, sourceFile) == InternalShortClassName(className) + JavaSuffix
  {
  }

  /**
    `.kt` rule: short class names (at most 3 UTF-16 code units, as Java's
    `length()` counts) replace the value, without suffix; longer ones keep it.
   */
  lemma KotlinRule(className: string, sourceFile: string)
    requires EndsWith(sourceFile, KotlinSuffix)
    ensures var shortName := InternalShortClassName(className);
            NewSourceFile(className, sourceFile) ==
              if Utf16Length(shortName) <= ObfuscatedNameMaxLength then shortName else sourceFile
  {
    SuffixesExclusive(sourceFile);
  }

  /** Any other suffix: the value becomes the short class name, inner-class segment included. */
  lemma OtherRule(className: string, sourceFile: string)
    requires !EndsWith(sourceFile, JavaSuffix) && !EndsWith(sourceFile, KotlinSuffix)
    ensures NewSourceFile(className, sourceFile) == InternalShortClassName(className)
  {
  }

  /**
    Rewriting an already rewritten value changes nothing, provided the short
    class name itself does not look like a `.java` or `.kt` file name.
   */
  lemma Idempotent(className: string, sourceFile: string)
    requires var shortName := InternalShortClassName(className);
             !EndsWith(shortName, JavaSuffix) && !EndsWith(shortName, KotlinSuffix)
    ensures NewSourceFile(className, NewSourceFile(className, sourceFile)) == NewSourceFile(className, sourceFile)
  {
    var once := NewSourceFile(className, sourceFile);
    if EndsWith(sourceFile, JavaSuffix) {
      JavaRule(className, sourceFile);
    } else if EndsWith(sourceFile, KotlinSuffix) {
      KotlinRule(className, sourceFile);
    }
  }

  /** The short name of a class in a package is what follows the package's separator. */
  lemma ShortNameInPackage(packageName: string, shortName: string)
    requires PackageSeparator !in shortName
    ensures InternalShortClassName(packageName + [PackageSeparator] + shortName) == shortName
  {
    var internalName := packageName + [PackageSeparator] + shortName;
    assert internalName[|packageName|] == PackageSeparator;
    assert internalName[|packageName| + 1..] == shortName;
    LastIndexOfAt(internalName, PackageSeparator, |packageName|);
  }

  /**
    An inner class `pkg/Outer$Inner` compiled from any `.java` file gets
    "Outer.java", the source file of its outer class.
   */
  lemma InnerClassUsesOuterFile(packageName: string, outerName: string, innerName: string, sourceFile: string)
    requires PackageSeparator !in outerName && PackageSeparator !in innerName
    requires InnerClassSeparator !in outerName
    requires EndsWith(sourceFile, JavaSuffix)
    ensures NewSourceFile(packageName + [PackageSeparator] + outerName + [InnerClassSeparator] + innerName, sourceFile)
            == outerName + JavaSuffix
  {
    var shortName := outerName + [InnerClassSeparator] + innerName;
    assert packageName + [PackageSeparator] + outerName + [InnerClassSeparator] + innerName
        == packageName + [PackageSeparator] + shortName;
    ShortNameInPackage(packageName, shortName);
    assert shortName[..|outerName|] == outerName;
    IndexOfAt(shortName, InnerClassSeparator, |outerName|);
  }

  /** A readable Kotlin class name longer than the threshold keeps its source file. */
  lemma KotlinLongNameExample()
    ensures NewSourceFile("com/a/b/LongClassName", "Somewhere.kt") == "Somewhere.kt"
  {
    assert "com/a/b/LongClassName" == "com/a/b" + [PackageSeparator] + "LongClassName";
    ShortNameInPackage("com/a/b", "LongClassName");
    KotlinRule("com/a/b/LongClassName", "Somewhere.kt");
  }

  /** An obfuscated Kotlin class name replaces the source file, with no suffix. */
  lemma KotlinShortNameExample()
    ensures NewSourceFile("com/a/b/X", "Unrelated.kt") == "X"
  {
    assert "com/a/b/X" == "com/a/b" + [PackageSeparator] + "X";
    ShortNameInPackage("com/a/b", "X");
    KotlinRule("com/a/b/X", "Unrelated.kt");
  }

  /**
    Two supplementary characters are only two Dafny characters but four UTF-16
    code units, so such a Kotlin class name counts as readable and is kept.
   */
  lemma KotlinSupplementaryNameExample()
    ensures NewSourceFile("\U{1F600}\U{1F600}", "A.kt") == "A.kt"
  {
    var name := "\U{1F600}\U{1F600}";
    assert PackageSeparator !in name;
    assert InternalShortClassName(name) == name;
    assert IsSupplementary(name[0]) && IsSupplementary(name[1]);
    assert Utf16Length(name) == 4;
    KotlinRule(name, "A.kt");
  }

  /** Outside the `.java` rule the inner-class segment is kept. */
  lemma OtherSuffixExample()
    ensures NewSourceFile("com/Foo$Bar", "Foo.scala") == "Foo$Bar"
  {
    assert "com/Foo$Bar" == "com" + [PackageSeparator] + "Foo$Bar";
    ShortNameInPackage("com", "Foo$Bar");
    EndsWithLast("Foo.scala", JavaSuffix);
    EndsWithLast("Foo.scala", KotlinSuffix);
    OtherRule("com/Foo$Bar", "Foo.scala");
  }

  // ---------------------------------------------------------------------------
  // The constant-pool patch

  /** A constant-pool slot: a UTF-8 constant, or any other kind of constant (or the unused slot 0). */
  datatype Constant = Utf8(value: string) | OtherConstant

  /** Why the patch cannot happen: the Java code throws in these cases. */
  datatype PatchFailure = IndexOutOfRange | NotUtf8Constant

  /**
    `visitSourceFileAttribute` on a class named `className` whose SourceFile
    attribute points at `sourceFileIndex`: reads the UTF-8 constant there and
    overwrites it with the rewritten name. Every other slot is left alone.
   */
  method VisitSourceFileAttribute(className: string, constantPool: array<Constant>, sourceFileIndex: nat)
    returns (failure: Option<PatchFailure>)
    modifies constantPool
    ensures failure == None <==>
              sourceFileIndex < constantPool.Length && old(constantPool[sourceFileIndex]).Utf8?
    ensures failure == Some(IndexOutOfRange) <==> sourceFileIndex >= constantPool.Length
    ensures failure == None ==>
              constantPool[sourceFileIndex] ==
                Utf8(NewSourceFile(className, old(constantPool[sourceFileIndex]).value))
    ensures forall i :: 0 <= i < constantPool.Length && i != sourceFileIndex ==>
              constantPool[i] == old(constantPool[i])
    ensures failure != None ==> constantPool[..] == old(constantPool[..])
  {
    if sourceFileIndex >= constantPool.Length {
      return Some(IndexOutOfRange);
    }
    var sourceFile := constantPool[sourceFileIndex];
    if !sourceFile.Utf8? {
      return Some(NotUtf8Constant);
    }
    constantPool[sourceFileIndex] := Utf8(NewSourceFile(className, sourceFile.value));
    failure := None;
  }
}
