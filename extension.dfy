/** The extension methods on the SOLIDWORKS Document Manager types: counting
    the external references of one configuration of an open document, and
    choosing the document type from a file name before opening it. The
    Document Manager itself is replaced by the values it would return. */
module Extension {

  import opened Wrappers
  import opened Text
  import opened Counting

  /** Documents older than this version (SOLIDWORKS 2002 and before) are
      refused. */
  const MinimumVersion := 2200

  /** A component of a configuration: the `PathName` and `IsSuppressed()`
      of an `ISwDMComponent11`. */
  datatype Component = Component(path: string, suppressed: bool)

  /** A configuration: what `GetComponents()` returns, `None` when the
      returned object is not an array. */
  datatype Configuration = Configuration(components: Option<seq<Component>>)

  /** An open document: `GetVersion()`, the configuration names (`None` when
      the manager returns null) and `GetConfigurationByName` (`None` when the
      returned object is not an `SwDMConfiguration3`). */
  datatype Document = Document(
    version: int,
    configurationNames: Option<seq<string>>,
    configurationByName: string -> Option<Configuration>)

  /** One variant per exception `GetExternalReferencesAndCount` throws. */
  datatype Error =
    | UnsupportedVersion
    | NamesUnavailable
    | ConfigurationNotFound
    | ConfigurationResolutionFailed

  /** The key a component is tallied under: the file name of its path,
      lower-cased. */
  function Key(path: string): string {
    Lower(FileName(path))
  }

  /** A component is tallied unless suppressed components are ignored and
      it is suppressed. */
  predicate Counted(c: Component, ignoreSuppressed: bool)
    ensures !ignoreSuppressed ==> Counted(c, ignoreSuppressed)
    ensures ignoreSuppressed ==> (Counted(c, ignoreSuppressed) <==> !c.suppressed)
  {
    !(ignoreSuppressed && c.suppressed)
  }

  /** The keys of the tallied components, in component order. */
  function CountedKeys(cs: seq<Component>, ignoreSuppressed: bool): (keys: seq<string>)
    ensures |keys| <= |cs|
  {
    if cs == [] then []
    else
      var c := cs[|cs| - 1];
      CountedKeys(cs[..|cs| - 1], ignoreSuppressed) + if Counted(c, ignoreSuppressed) then [Key(c.path)] else []
  }

  lemma CountedKeysStep(cs: seq<Component>, i: nat, ignoreSuppressed: bool)
    requires i < |cs|
    ensures CountedKeys(cs[..i + 1], ignoreSuppressed) ==
      CountedKeys(cs[..i], ignoreSuppressed) + if Counted(cs[i], ignoreSuppressed) then [Key(cs[i].path)] else []
  {
    assert cs[..i + 1][..i] == cs[..i];
  }

  /** `FirstOrDefault` on a sequence of strings: `None` (null) when empty. */
  function FirstOrDefault(names: seq<string>): (r: Option<string>)
    ensures r.Some? <==> names != []
    ensures r.Some? ==> r.value in names
  {
    if names == [] then None else Some(names[0])
  }

  /** The configuration used: the caller's name, or the first listed name
      when the caller's is null, empty or white space only. */
  function SelectedName(names: seq<string>, configurationName: Option<string>): (r: Option<string>)
    ensures !IsNullOrWhiteSpace(configurationName) ==> r == configurationName
    ensures r.None? <==> IsNullOrWhiteSpace(configurationName) && names == []
    ensures IsNullOrWhiteSpace(configurationName) && r.Some? ==> r.value in names
  {
    if IsNullOrWhiteSpace(configurationName) then FirstOrDefault(names) else configurationName
  }

  /** `Contains` on the name array; the names are never null, so a null
      name is never contained. */
  predicate Listed(names: seq<string>, name: Option<string>)
    ensures Listed(names, name) <==> exists i :: 0 <= i < |names| && name == Some(names[i])
  {
    name.Some? && name.value in names
  }

  /** What `GetExternalReferencesAndCount` returns or throws. */
  function ExternalReferences(doc: Document, ignoreSuppressed: bool, configurationName: Option<string>)
    : (r: Result<map<string, int>, Error>)
    ensures r.Success? ==> forall k :: k in r.value ==> r.value[k] >= 1
  {
    if doc.version < MinimumVersion then Failure(UnsupportedVersion)
    else match doc.configurationNames
      case None => Failure(NamesUnavailable)
      case Some(names) =>
        var name := SelectedName(names, configurationName);
        if !Listed(names, name) then Failure(ConfigurationNotFound)
        else match doc.configurationByName(name.value)
          case None => Failure(ConfigurationResolutionFailed)
          case Some(config) =>
            match config.components
            case None => Success(map[])
            case Some(cs) => Success(Tally(CountedKeys(cs, ignoreSuppressed)))
  }

  /** The walk over the component array: skips suppressed components when
      asked to, and counts every other component under its key. */
  method TallyComponents(cs: seq<Component>, ignoreSuppressed: bool) returns (dictionary: map<string, int>)
    ensures dictionary == Tally(CountedKeys(cs, ignoreSuppressed))
    ensures forall k :: k in dictionary <==> k in CountedKeys(cs, ignoreSuppressed)
    ensures forall k :: k in dictionary ==> dictionary[k] == multiset(CountedKeys(cs, ignoreSuppressed))[k]
  {
    dictionary := map[];
    for i := 0 to |cs|
      invariant dictionary == Tally(CountedKeys(cs[..i], ignoreSuppressed))
    {
      var component := cs[i];
      ghost var seen := CountedKeys(cs[..i], ignoreSuppressed);
      CountedKeysStep(cs, i, ignoreSuppressed);
      if ignoreSuppressed {
        if component.suppressed {
          assert CountedKeys(cs[..i + 1], ignoreSuppressed) == seen;
          continue;
        }
      }
      var fileName := Key(component.path);
      assert CountedKeys(cs[..i + 1], ignoreSuppressed) == seen + [fileName];
      TallyAppend(seen, fileName);
      if fileName in dictionary {
        dictionary := dictionary[fileName := dictionary[fileName] + 1];
      } else {
        dictionary := dictionary[fileName := 1];
      }
    }
    assert cs[..|cs|] == cs;
  }

  /** Counts the external references of one configuration of `doc`: checks
      the version, selects and resolves the configuration, then walks its
      components and tallies their keys. */
  method GetExternalReferencesAndCount(
    doc: Document, ignoreSuppressed: bool := true, configurationName: Option<string> := Some(""))
    returns (r: Result<map<string, int>, Error>)
    ensures r == ExternalReferences(doc, ignoreSuppressed, configurationName)
  {
    var dictionary: map<string, int> := map[];
    if doc.version < MinimumVersion {
      return Failure(UnsupportedVersion);
    }
    var configurationNames := doc.configurationNames;
    if configurationNames.None? {
      return Failure(NamesUnavailable);
    }
    var names := configurationNames.value;
    var name := configurationName;
    if IsNullOrWhiteSpace(name) {
      name := FirstOrDefault(names);
    }
    if !Listed(names, name) {
      return Failure(ConfigurationNotFound);
    }
    var config := doc.configurationByName(name.value);
    if config.None? {
      return Failure(ConfigurationResolutionFailed);
    }
    var components := config.value.components;
    if components.Some? {
      dictionary := TallyComponents(components.value, ignoreSuppressed);
    }
    return Success(dictionary);
  }

  // Properties of the component walk

  /** A key is tallied exactly when some counted component carries it. */
  lemma {:induction false} CountedKeysMembership(cs: seq<Component>, ignoreSuppressed: bool, k: string)
    ensures k in CountedKeys(cs, ignoreSuppressed) <==>
      exists i :: 0 <= i < |cs| && Counted(cs[i], ignoreSuppressed) && Key(cs[i].path) == k
  {
    if cs != [] {
      var n := |cs| - 1;
      CountedKeysMembership(cs[..n], ignoreSuppressed, k);
      if exists i :: 0 <= i < n && Counted(cs[..n][i], ignoreSuppressed) && Key(cs[..n][i].path) == k {
        var i :| 0 <= i < n && Counted(cs[..n][i], ignoreSuppressed) && Key(cs[..n][i].path) == k;
        assert cs[i] == cs[..n][i];
      }
      if exists i :: 0 <= i < |cs| && Counted(cs[i], ignoreSuppressed) && Key(cs[i].path) == k {
        var i :| 0 <= i < |cs| && Counted(cs[i], ignoreSuppressed) && Key(cs[i].path) == k;
        if i < n {
          assert cs[..n][i] == cs[i];
        }
      }
    }
  }

  /** With suppressed components ignored, a file name whose every
      occurrence is suppressed gets no entry at all. */
  lemma SuppressedOnlyIsAbsent(cs: seq<Component>, k: string)
    requires forall i :: 0 <= i < |cs| && Key(cs[i].path) == k ==> cs[i].suppressed
    ensures k !in Tally(CountedKeys(cs, true))
  {
  }

  lemma {:induction false} CountedKeysConcat(a: seq<Component>, b: seq<Component>, ignoreSuppressed: bool)
    ensures CountedKeys(a + b, ignoreSuppressed) == CountedKeys(a, ignoreSuppressed) + CountedKeys(b, ignoreSuppressed)
  {
    if |b| == 0 {
      assert a + b == a;
    } else {
      var n := |b| - 1;
      var ab := a + b;
      assert ab[..|ab| - 1] == a + b[..n];
      assert ab[|ab| - 1] == b[n];
      CountedKeysConcat(a, b[..n], ignoreSuppressed);
      var tail := if Counted(b[n], ignoreSuppressed) then [Key(b[n].path)] else [];
      assert CountedKeys(ab, ignoreSuppressed) == CountedKeys(a + b[..n], ignoreSuppressed) + tail;
      assert CountedKeys(b, ignoreSuppressed) == CountedKeys(b[..n], ignoreSuppressed) + tail;
    }
  }

  /** With suppressed components ignored, a suppressed component anywhere
      in the array changes nothing: the result is as if it were absent. */
  lemma SuppressedContributesNothing(before: seq<Component>, c: Component, after: seq<Component>)
    requires c.suppressed
    ensures Tally(CountedKeys(before + [c] + after, true)) == Tally(CountedKeys(before + after, true))
  {
    CountedKeysConcat(before + [c], after, true);
    CountedKeysConcat(before, [c], true);
    CountedKeysConcat(before, after, true);
    assert [c][..0] == [];
    assert CountedKeys([c], true) == [];
    assert CountedKeys(before + [c] + after, true) == CountedKeys(before + after, true);
  }

  /** Without suppression filtering the suppression flags do not matter:
      components with the same paths give the same keys. */
  lemma {:induction false} SuppressionIgnoredWhenNotFiltering(cs: seq<Component>, ds: seq<Component>)
    requires |cs| == |ds|
    requires forall i :: 0 <= i < |cs| ==> cs[i].path == ds[i].path
    ensures CountedKeys(cs, false) == CountedKeys(ds, false)
    ensures |CountedKeys(cs, false)| == |cs|
  {
    if cs != [] {
      var n := |cs| - 1;
      SuppressionIgnoredWhenNotFiltering(cs[..n], ds[..n]);
    }
  }

  /** Paths that differ only in letter case are tallied under one key. */
  lemma KeyIgnoresCase(p: string, q: string)
    requires EqualIgnoringCase(p, q)
    ensures Key(p) == Key(q)
  {
    FileNameIgnoresCase(p, q);
  }

  /** The directory part of a path does not reach the key. */
  lemma KeyIgnoresDirectory(directory: string, name: string)
    requires directory == [] || IsSeparator(directory[|directory| - 1])
    requires NoSeparator(name)
    ensures Key(directory + name) == Lower(name)
  {
    FileNameOfJoin(directory, name);
  }

  /** The positions of the components that are tallied. */
  function CountedPositions(cs: seq<Component>, ignoreSuppressed: bool): set<int> {
    set i | 0 <= i < |cs| && Counted(cs[i], ignoreSuppressed)
  }

  /** One key per tallied component. */
  lemma {:induction false} CountedKeysLength(cs: seq<Component>, ignoreSuppressed: bool)
    ensures |CountedKeys(cs, ignoreSuppressed)| == |CountedPositions(cs, ignoreSuppressed)|
  {
    if cs != [] {
      var n := |cs| - 1;
      CountedKeysLength(cs[..n], ignoreSuppressed);
      var prefix := CountedPositions(cs[..n], ignoreSuppressed);
      assert CountedPositions(cs, ignoreSuppressed) ==
        prefix + if Counted(cs[n], ignoreSuppressed) then {n} else {};
    }
  }

  /** The positions of the tallied components that carry key `k`. */
  function KeyPositions(cs: seq<Component>, ignoreSuppressed: bool, k: string): set<int> {
    set i | 0 <= i < |cs| && Counted(cs[i], ignoreSuppressed) && Key(cs[i].path) == k
  }

  lemma KeyPositionsStep(cs: seq<Component>, ignoreSuppressed: bool, k: string)
    requires cs != []
    ensures var n := |cs| - 1;
      KeyPositions(cs, ignoreSuppressed, k) == KeyPositions(cs[..n], ignoreSuppressed, k) +
        if Counted(cs[n], ignoreSuppressed) && Key(cs[n].path) == k then {n} else {}
  {
    var n := |cs| - 1;
    forall i | 0 <= i < n
      ensures cs[..n][i] == cs[i]
    {
    }
  }

  /** The count of a key is the number of tallied components carrying it. */
  lemma {:induction false} CountedKeysMultiplicity(cs: seq<Component>, ignoreSuppressed: bool, k: string)
    ensures multiset(CountedKeys(cs, ignoreSuppressed))[k] == |KeyPositions(cs, ignoreSuppressed, k)|
  {
    if cs != [] {
      var n := |cs| - 1;
      CountedKeysMultiplicity(cs[..n], ignoreSuppressed, k);
      KeyPositionsStep(cs, ignoreSuppressed, k);
      assert n !in KeyPositions(cs[..n], ignoreSuppressed, k);
      var tail := if Counted(cs[n], ignoreSuppressed) then [Key(cs[n].path)] else [];
      MultiplicityAppend(CountedKeys(cs[..n], ignoreSuppressed), tail, k);
    }
  }

  // Properties of the whole call

  /** A document older than the minimum version is refused whatever the
      other arguments are; nothing else is looked at first. */
  lemma OldDocumentRefused(doc: Document, ignoreSuppressed: bool, configurationName: Option<string>)
    requires doc.version < MinimumVersion
    ensures ExternalReferences(doc, ignoreSuppressed, configurationName) == Failure(UnsupportedVersion)
  {
  }

  /** A supported document whose configuration names cannot be read fails
      with `NamesUnavailable`, before any name is examined. */
  lemma MissingNamesRefused(doc: Document, ignoreSuppressed: bool, configurationName: Option<string>)
    requires doc.version >= MinimumVersion && doc.configurationNames.None?
    ensures ExternalReferences(doc, ignoreSuppressed, configurationName) == Failure(NamesUnavailable)
  {
  }

  /** A null, empty or white-space name means the first listed name. */
  lemma BlankNameMeansFirst(doc: Document, ignoreSuppressed: bool, configurationName: Option<string>)
    requires doc.configurationNames.Some? && |doc.configurationNames.value| > 0
    requires IsNullOrWhiteSpace(configurationName)
    ensures ExternalReferences(doc, ignoreSuppressed, configurationName) ==
      ExternalReferences(doc, ignoreSuppressed, Some(doc.configurationNames.value[0]))
  {
  }

  /** An empty name list is not an unavailable one: every name, defaulted
      or not, is then not found. */
  lemma EmptyNameListNotFound(doc: Document, ignoreSuppressed: bool, configurationName: Option<string>)
    requires doc.version >= MinimumVersion && doc.configurationNames == Some([])
    ensures ExternalReferences(doc, ignoreSuppressed, configurationName) == Failure(ConfigurationNotFound)
  {
  }

  /** An explicit name must be listed exactly (case-sensitive). */
  lemma UnlistedNameNotFound(doc: Document, ignoreSuppressed: bool, name: string)
    requires doc.version >= MinimumVersion && doc.configurationNames.Some?
    requires !IsNullOrWhiteSpace(Some(name)) && name !in doc.configurationNames.value
    ensures ExternalReferences(doc, ignoreSuppressed, Some(name)) == Failure(ConfigurationNotFound)
  {
  }

  /** A listed name whose configuration cannot be obtained fails with
      `ConfigurationResolutionFailed`. */
  lemma UnresolvedConfigurationRefused(doc: Document, ignoreSuppressed: bool, name: string)
    requires doc.version >= MinimumVersion && doc.configurationNames.Some?
    requires !IsNullOrWhiteSpace(Some(name)) && name in doc.configurationNames.value
    requires doc.configurationByName(name).None?
    ensures ExternalReferences(doc, ignoreSuppressed, Some(name)) == Failure(ConfigurationResolutionFailed)
  {
  }

  /** A configuration whose component list is missing yields an empty map,
      not an error. */
  lemma MissingComponentsGiveEmptyMap(doc: Document, ignoreSuppressed: bool, name: string)
    requires doc.version >= MinimumVersion && doc.configurationNames.Some?
    requires !IsNullOrWhiteSpace(Some(name)) && name in doc.configurationNames.value
    requires doc.configurationByName(name) == Some(Configuration(None))
    ensures ExternalReferences(doc, ignoreSuppressed, Some(name)) == Success(map[])
  {
  }

  /** On success every count is the number of tallied components carrying
      the key, and the counts add up to the number of tallied components. */
  lemma SuccessCountsComponents(doc: Document, ignoreSuppressed: bool, configurationName: Option<string>)
    requires ExternalReferences(doc, ignoreSuppressed, configurationName).Success?
    ensures var m := ExternalReferences(doc, ignoreSuppressed, configurationName).value;
      var name := SelectedName(doc.configurationNames.value, configurationName).value;
      var cs := doc.configurationByName(name).value.components.GetOr([]);
      && (forall k :: k in m <==> k in CountedKeys(cs, ignoreSuppressed))
      && (forall k :: k in m ==> m[k] == multiset(CountedKeys(cs, ignoreSuppressed))[k])
      && SumValues(m) == |CountedPositions(cs, ignoreSuppressed)|
  {
    var name := SelectedName(doc.configurationNames.value, configurationName).value;
    var cs := doc.configurationByName(name).value.components.GetOr([]);
    TallyTotal(CountedKeys(cs, ignoreSuppressed));
    CountedKeysLength(cs, ignoreSuppressed);
    assert CountedPositions([], ignoreSuppressed) == {};
    assert Tally([]) == map[];
  }

  /** On success the count of a key is the number of positions in the
      component array holding a tallied component with that key. */
  lemma SuccessCountsPositions(doc: Document, ignoreSuppressed: bool, configurationName: Option<string>, k: string)
    requires ExternalReferences(doc, ignoreSuppressed, configurationName).Success?
    ensures var m := ExternalReferences(doc, ignoreSuppressed, configurationName).value;
      var name := SelectedName(doc.configurationNames.value, configurationName).value;
      var cs := doc.configurationByName(name).value.components.GetOr([]);
      k in m ==> m[k] == |KeyPositions(cs, ignoreSuppressed, k)|
  {
    var name := SelectedName(doc.configurationNames.value, configurationName).value;
    var cs := doc.configurationByName(name).value.components.GetOr([]);
    CountedKeysMultiplicity(cs, ignoreSuppressed, k);
  }

  /** A path without separators is its own file name. */
  lemma KeyOfPlainName(name: string)
    requires NoSeparator(name)
    ensures Key(name) == Lower(name)
  {
    KeyIgnoresDirectory([], name);
    assert [] + name == name;
  }

  lemma KeyOfMixedCase()
    ensures Key("Bracket.SLDPRT") == "bracket.sldprt"
  {
    KeyOfPlainName("Bracket.SLDPRT");
  }

  lemma KeyOfUpperStem()
    ensures Key("BRACKET.sldprt") == "bracket.sldprt"
  {
    KeyOfPlainName("BRACKET.sldprt");
  }

  lemma KeyOfCapitalised()
    ensures Key("Shaft.sldprt") == "shaft.sldprt"
  {
    KeyOfPlainName("Shaft.sldprt");
  }

  /** The keys of the paths `Bracket.SLDPRT`, `BRACKET.sldprt` and
      `Shaft.sldprt`. */
  lemma ExampleKeys()
    ensures Key("Bracket.SLDPRT") == "bracket.sldprt"
    ensures Key("BRACKET.sldprt") == "bracket.sldprt"
    ensures Key("Shaft.sldprt") == "shaft.sldprt"
  {
    KeyOfMixedCase();
    KeyOfUpperStem();
    KeyOfCapitalised();
  }

  lemma CountedKeysOfThree(p: string, q: string, r: string, suppressFirst: bool)
    requires Key(p) == Key(q)
    ensures CountedKeys([Component(p, suppressFirst), Component(q, false), Component(r, false)], true) ==
      (if suppressFirst then [] else [Key(p)]) + [Key(p), Key(r)]
  {
    var c0, c1, c2 := Component(p, suppressFirst), Component(q, false), Component(r, false);
    var cs := [c0, c1, c2];
    assert [c0][..0] == [] && [c0, c1][..1] == [c0] && cs[..2] == [c0, c1];
    var first := if suppressFirst then [] else [Key(p)];
    assert CountedKeys([c0], true) == first;
    assert CountedKeys([c0, c1], true) == first + [Key(p)];
  }

  /** Two paths that differ only in letter case count under one key, and
      a suppressed occurrence drops out: with components p, q, r where p
      and q name the same file, the tally is {key(p): 2, key(r): 1}, or
      {key(p): 1, key(r): 1} when p is suppressed. */
  lemma CaseVariantsCountTogether(p: string, q: string, r: string, suppressFirst: bool)
    requires EqualIgnoringCase(p, q) && Key(p) != Key(r)
    ensures Tally(CountedKeys([Component(p, suppressFirst), Component(q, false), Component(r, false)], true)) ==
      map[Key(p) := if suppressFirst then 1 else 2, Key(r) := 1]
  {
    KeyIgnoresCase(p, q);
    CountedKeysOfThree(p, q, r, suppressFirst);
    var k, l := Key(p), Key(r);
    if suppressFirst {
      assert [] + [k, l] == [k, l];
      TallyOfTwoDistinct(k, l);
    } else {
      assert [k] + [k, l] == [k, k, l];
      TallyOfRepeat(k, l);
    }
  }

  // Opening a document

  /** The document types `OpenDocument` can pass to `GetDocument`. */
  datatype DocumentType = Part | Assembly | Drawing

  /** What `OpenDocument` does before reaching the Document Manager: throw
      `ArgumentNullException` for a null manager, return null for a file
      that is not a SOLIDWORKS document, or call `GetDocument` with the
      document type. */
  datatype OpenStep = ManagerIsNull | NotADocument | GetDocument(documentType: DocumentType)

  /** The document type of a file name, from its lower-cased ending; there
      is no leading dot in the endings tested. */
  function DocumentTypeOf(fileName: string): (r: Option<DocumentType>)
    ensures r.Some? ==> |fileName| >= 6
  {
    var name := Lower(fileName);
    if EndsWith(name, "sldprt") then Some(Part)
    else if EndsWith(name, "sldasm") then Some(Assembly)
    else if EndsWith(name, "slddrw") then Some(Drawing)
    else None
  }

  /** `OpenDocument` up to the `GetDocument` call. */
  function OpenDocument(managerPresent: bool, fileName: string): (r: OpenStep)
    ensures r == ManagerIsNull <==> !managerPresent
    ensures r == NotADocument <==> managerPresent && DocumentTypeOf(fileName).None?
    ensures r.GetDocument? ==> DocumentTypeOf(fileName) == Some(r.documentType)
  {
    if !managerPresent then ManagerIsNull
    else match DocumentTypeOf(fileName)
      case None => NotADocument
      case Some(t) => GetDocument(t)
  }

  /** A null manager is reported whatever the file name. */
  lemma NullManagerRefused(fileName: string)
    ensures OpenDocument(false, fileName) == ManagerIsNull
  {
  }

  /** Each SOLIDWORKS ending selects exactly one document type, and any other
      name never reaches `GetDocument`. */
  lemma OpenDocumentClassifies(fileName: string)
    ensures var name, step := Lower(fileName), OpenDocument(true, fileName);
      && (step == GetDocument(Part) <==> EndsWith(name, "sldprt"))
      && (step == GetDocument(Assembly) <==> EndsWith(name, "sldasm"))
      && (step == GetDocument(Drawing) <==> EndsWith(name, "slddrw"))
      && (step == NotADocument <==>
            !EndsWith(name, "sldprt") && !EndsWith(name, "sldasm") && !EndsWith(name, "slddrw"))
  {
  }

  /** The ending is compared without regard to letter case. */
  lemma OpenDocumentIgnoresCase(fileName: string)
    ensures OpenDocument(true, fileName) == OpenDocument(true, Lower(fileName))
  {
  }

  lemma PartEnding(stem: string)
    ensures DocumentTypeOf(stem + "sldprt") == Some(Part)
  {
    LowerOfConcat(stem, "sldprt");
    LowerOfLowercase("sldprt");
    EndsWithConcat(Lower(stem), "sldprt");
  }

  lemma DrawingEnding(stem: string)
    ensures DocumentTypeOf(stem + "SLDDRW") == Some(Drawing)
  {
    LowerOfConcat(stem, "SLDDRW");
    assert Lower("SLDDRW") == "slddrw";
    var name := Lower(stem) + "slddrw";
    assert name[|name| - 6..] == "slddrw";
  }

  lemma BackupEnding(stem: string)
    ensures DocumentTypeOf(stem + "sldprt.bak") == None
  {
    LowerOfConcat(stem, "sldprt.bak");
    LowerOfLowercase("sldprt.bak");
    var name := Lower(stem) + "sldprt.bak";
    assert name[|name| - 1] == 'k';
  }

  /** Without a leading dot in the test, a name that merely ends in the
      letters of an extension is taken for a document, in either case
      (`xsldprt` is a part, `NOTES.SLDDRW` a drawing), while a backup copy
      such as `part.sldprt.bak` is not a document. */
  lemma EndingWithoutDotIsEnough(stem: string)
    ensures OpenDocument(true, stem + "sldprt") == GetDocument(Part)
    ensures OpenDocument(true, stem + "SLDDRW") == GetDocument(Drawing)
    ensures OpenDocument(true, stem + "sldprt.bak") == NotADocument
  {
    PartEnding(stem);
    DrawingEnding(stem);
    BackupEnding(stem);
  }

  // The open error reported by `OpenDocument`

  /** `swDmDocumentOpenErrorNone`, the value of `SwDmDocumentOpenError`
      that reports no error. */
  const OpenErrorNone := 0

  /** What `OpenDocument` gives its caller: the `ArgumentNullException`, or
      the document returned (`None` for null) with the `openError` out
      parameter. `D` stands for the Document Manager's document handle. */
  datatype OpenResult<D> = ArgumentNull | Returned(document: Option<D>, openError: int)

  /** `OpenDocument` as written. `getDocument` stands for the Document
      Manager's `GetDocument`: the document it opens, if any, and the error
      code it reports. The reported code goes into a local variable, and the
      out parameter keeps the value it was given on entry. */
  function OpenDocumentAsWritten<D>(
    managerPresent: bool, fileName: string, readOnly: bool,
    getDocument: (string, DocumentType, bool) -> (Option<D>, int)): (r: OpenResult<D>)
    ensures r == ArgumentNull <==> !managerPresent
    ensures r.Returned? ==> r.openError == OpenErrorNone
    ensures r.Returned? && DocumentTypeOf(fileName).None? ==> r.document == None
  {
    match OpenDocument(managerPresent, fileName)
    case ManagerIsNull => ArgumentNull
    case NotADocument => Returned(None, OpenErrorNone)
    case GetDocument(t) =>
      var (document, reported) := getDocument(fileName, t, readOnly);
      Returned(document, OpenErrorNone)
  }

  /** As written, whatever error `GetDocument` reports for a SOLIDWORKS
      file name, the caller is told there was none. */
  lemma OpenErrorLostAsWritten<D>(
    fileName: string, readOnly: bool, getDocument: (string, DocumentType, bool) -> (Option<D>, int))
    requires DocumentTypeOf(fileName).Some?
    requires getDocument(fileName, DocumentTypeOf(fileName).value, readOnly).1 != OpenErrorNone
    ensures var r := OpenDocumentAsWritten(true, fileName, readOnly, getDocument);
      r.Returned? && r.openError == OpenErrorNone
      && r.openError != getDocument(fileName, DocumentTypeOf(fileName).value, readOnly).1
  {
  }

  /** `OpenDocument` with the error code of `GetDocument` passed back
      through the out parameter. */
  function OpenDocumentCorrected<D>(
    managerPresent: bool, fileName: string, readOnly: bool,
    getDocument: (string, DocumentType, bool) -> (Option<D>, int)): (r: OpenResult<D>)
    ensures r == ArgumentNull <==> !managerPresent
    ensures r.Returned? && DocumentTypeOf(fileName).None? ==> r == Returned(None, OpenErrorNone)
    ensures r.Returned? && r.openError != OpenErrorNone ==> DocumentTypeOf(fileName).Some?
  {
    match OpenDocument(managerPresent, fileName)
    case ManagerIsNull => ArgumentNull
    case NotADocument => Returned(None, OpenErrorNone)
    case GetDocument(t) =>
      var (document, reported) := getDocument(fileName, t, readOnly);
      Returned(document, reported)
  }

  /** Corrected, the caller sees exactly what `GetDocument` returned and
      reported, for the type the file name selects; a file name that is not
      a SOLIDWORKS document gives a null document without an error, and
      `GetDocument` is not consulted. */
  lemma OpenDocumentReportsError<D>(
    fileName: string, readOnly: bool, getDocument: (string, DocumentType, bool) -> (Option<D>, int))
    ensures var r := OpenDocumentCorrected(true, fileName, readOnly, getDocument);
      match DocumentTypeOf(fileName)
      case None => r == Returned(None, OpenErrorNone)
      case Some(t) =>
        r == Returned(getDocument(fileName, t, readOnly).0, getDocument(fileName, t, readOnly).1)
    ensures OpenDocumentCorrected(false, fileName, readOnly, getDocument) == ArgumentNull
  {
  }
}
