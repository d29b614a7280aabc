/** Maven repository paths: parsing them to coordinates, printing coordinates as paths, and when
    the two undo each other. */
module Maven {
  import opened Prelude
  import opened Text

  // ---------------------------------------------------------------- coordinates

  datatype Coordinate = Coordinate(group: string, artifact: string, version: string,
                                   classifier: Option<string>, extension: string)

  datatype Field = GroupId | ArtifactId | Version | Extension | Classifier

  datatype CoordinateError =
    | EmptyField(field: Field)
    | PathTraversal(field: Field)
    | IllegalCharacter(field: Field, ch: char)

  predicate IsControl(c: char) { c < ' ' || (0x7f as char) <= c <= (0x9f as char) }

  predicate IsIllegal(c: char) { c == '/' || c == '\\' || c == ':' || IsControl(c) }

  predicate AllLegal(value: string) { forall i | 0 <= i < |value| :: !IsIllegal(value[i]) }

  /** The first illegal character of a field, if it has one. */
  function FirstIllegal(value: string): (c: Option<char>)
    ensures c.None? <==> forall i | 0 <= i < |value| :: !IsIllegal(value[i])
  {
    if value == "" then None
    else if IsIllegal(value[0]) then Some(value[0])
    else FirstIllegal(value[1..])
  }

  lemma {:induction false} FirstIllegalIsFirst(value: string) returns (i: nat)
    requires FirstIllegal(value).Some?
    ensures i < |value| && FirstIllegal(value) == Some(value[i]) && IsIllegal(value[i]) && AllLegal(value[..i])
  {
    if IsIllegal(value[0]) {
      i := 0;
    } else {
      i := FirstIllegalIsFirst(value[1..]);
      i := i + 1;
      assert value[..i] == [value[0]] + value[1..][..i - 1];
    }
  }

  function ValidateField(field: Field, value: string): Option<CoordinateError> {
    if value == "" then Some(EmptyField(field))
    else if value == "." || value == ".." then Some(PathTraversal(field))
    else
      match FirstIllegal(value)
      case Some(c) => Some(IllegalCharacter(field, c))
      case None => None
  }

  function ValidateCoordinate(c: Coordinate): Option<CoordinateError> {
    var g, a, v, e := ValidateField(GroupId, c.group), ValidateField(ArtifactId, c.artifact),
                      ValidateField(Version, c.version), ValidateField(Extension, c.extension);
    if g.Some? then g else if a.Some? then a else if v.Some? then v else if e.Some? then e
    else if c.classifier.Some? then ValidateField(Classifier, c.classifier.value)
    else None
  }

  // ---------------------------------------------------------------- printing

  function GroupPath(c: Coordinate): string { Replace(c.group, '.', '/') }

  function Stem(c: Coordinate): string {
    c.artifact + "-" + c.version + (if c.classifier.Some? then "-" + c.classifier.value else "")
  }

  function Rest(classifier: Option<string>, extension: string): string {
    (if classifier.Some? then "-" + classifier.value else "") + "." + extension
  }

  function Filename(c: Coordinate): string { Stem(c) + "." + c.extension }

  function RepositoryPath(c: Coordinate): string {
    GroupPath(c) + "/" + c.artifact + "/" + c.version + "/" + Filename(c)
  }

  // ---------------------------------------------------------------- parsing

  datatype Algo = Md5 | Sha1 | Sha256 | Sha512

  function AlgoOf(ext: string): Option<Algo> {
    if ext == "md5" then Some(Md5)
    else if ext == "sha1" then Some(Sha1)
    else if ext == "sha256" then Some(Sha256)
    else if ext == "sha512" then Some(Sha512)
    else None
  }

  function ExtensionOf(algo: Algo): string {
    match algo case Md5 => "md5" case Sha1 => "sha1" case Sha256 => "sha256" case Sha512 => "sha512"
  }

  datatype PathClass = Artifact | Checksum(algo: Algo) | Metadata(versionLevel: bool, checksum: Option<Algo>)

  datatype Parsed = Ok(coordinate: Coordinate, class_: PathClass) | Invalid

  function NonEmpty(parts: seq<string>): seq<string> {
    if parts == [] then []
    else if parts[0] == "" then NonEmpty(parts[1..])
    else [parts[0]] + NonEmpty(parts[1..])
  }

  function TrimSlashes(path: string): string {
    if path != "" && path[0] == '/' then TrimSlashes(path[1..]) else path
  }

  function Segments(path: string): seq<string> { NonEmpty(Split(TrimSlashes(path), '/')) }

  const METADATA := "maven-metadata.xml"

  /** Whether a file name is that of a metadata document, and of which checksum of it. */
  function MetadataSuffix(name: string): Option<Option<Algo>> {
    if name == METADATA then Some(None)
    else if METADATA + "." <= name then
      var algo := AlgoOf(name[|METADATA| + 1..]);
      if algo.Some? then Some(algo) else None
    else None
  }

  function StripChecksum(name: string): (string, Option<Algo>) {
    var dot := LastIndex(name, '.');
    if dot >= 0 && AlgoOf(name[dot + 1..]).Some? then (name[..dot], AlgoOf(name[dot + 1..])) else (name, None)
  }

  const COMPOUND := ["tar.gz", "tar.bz2", "tar.xz", "tar.zst"]

  predicate ClassifiedAs(tail: string, extension: string) {
    |tail| > |extension| + 1 && EndsWith(tail, "." + extension)
  }

  /** The first of these extensions that the tail ends in, after a classifier. */
  function SplitCompound(tail: string, compounds: seq<string>): (r: Option<(string, string)>)
    ensures r.Some? ==> r.value.1 in compounds && r.value.0 != "" && tail == r.value.0 + "." + r.value.1
    ensures r.None? ==> forall e | e in compounds :: !ClassifiedAs(tail, e)
  {
    if compounds == [] then None
    else if ClassifiedAs(tail, compounds[0]) then Some((tail[..|tail| - |compounds[0]| - 1], compounds[0]))
    else SplitCompound(tail, compounds[1..])
  }

  function SplitAtLastDot(tail: string): (r: Option<(string, string)>)
    ensures r.Some? ==> r.value.0 != "" && r.value.1 != "" && tail == r.value.0 + "." + r.value.1
    ensures r.Some? ==> Lacks(r.value.1, '.')
  {
    var dot := LastIndex(tail, '.');
    if dot <= 0 || dot == |tail| - 1 then None else Some((tail[..dot], tail[dot + 1..]))
  }

  function SplitClassifier(tail: string, compounds: seq<string>): Option<(string, string)> {
    var compound := SplitCompound(tail, compounds);
    if compound.Some? then compound else SplitAtLastDot(tail)
  }

  function Classified(split: Option<(string, string)>): Option<(Option<string>, string)> {
    if split.Some? then Some((Some(split.value.0), split.value.1)) else None
  }

  /** The classifier and extension in what follows the artifact and version of a file name. */
  function SplitRest(rest: string): Option<(Option<string>, string)> {
    if rest != "" && rest[0] == '-' then Classified(SplitClassifier(rest[1..], COMPOUND))
    else if rest != "" && rest[0] == '.' then Some((None, rest[1..]))
    else None
  }

  function SplitFilename(artifact: string, version: string, filename: string): Option<(Option<string>, string)> {
    var prefix := artifact + "-" + version;
    if prefix <= filename then SplitRest(filename[|prefix|..]) else None
  }

  function Accept(c: Coordinate, cls: PathClass): Parsed { if ValidateCoordinate(c).None? then Ok(c, cls) else Invalid }

  predicate HasDigit(s: string) { exists i :: 0 <= i < |s| && '0' <= s[i] <= '9' }

  /** What the directories of a metadata path name, and whether a version is among them. */
  function MetadataTarget(segments: seq<string>): (Coordinate, bool)
    requires |segments| >= 3
  {
    var n := |segments| - 1;
    var last := segments[n - 1];
    if HasDigit(last) && n >= 3 then
      (Coordinate(Join(segments[..n - 2], '.'), segments[n - 2], last, None, "pom"), true)
    else
      (Coordinate(Join(segments[..n - 1], '.'), last, "index", None, "pom"), false)
  }

  function ClassifyMetadata(segments: seq<string>, checksum: Option<Algo>): Parsed
    requires |segments| >= 3
  {
    var (c, versionLevel) := MetadataTarget(segments);
    Accept(c, Metadata(versionLevel, checksum))
  }

  function ClassOf(checksum: Option<Algo>): PathClass {
    if checksum.Some? then Checksum(checksum.value) else Artifact
  }

  function ParseStripped(group: seq<string>, artifact: string, version: string,
                         stripped: string, checksum: Option<Algo>): Parsed
  {
    var split := SplitFilename(artifact, version, stripped);
    if split.None? then Invalid
    else Accept(Coordinate(Join(group, '.'), artifact, version, split.value.0, split.value.1), ClassOf(checksum))
  }

  function ParseArtifact(group: seq<string>, artifact: string, version: string, filename: string): Parsed {
    var (stripped, checksum) := StripChecksum(filename);
    ParseStripped(group, artifact, version, stripped, checksum)
  }

  function ParseSegments(segments: seq<string>): Parsed {
    var n := |segments|;
    if n < 3 then Invalid
    else
      var metadata := MetadataSuffix(segments[n - 1]);
      if metadata.Some? then ClassifyMetadata(segments, metadata.value)
      else if n < 4 then Invalid
      else ParseArtifact(segments[..n - 3], segments[n - 3], segments[n - 2], segments[n - 1])
  }

  function ParseLayoutPath(path: string): Parsed { ParseSegments(Segments(path)) }

  // ---------------------------------------------------------------- printed paths

  /** The extension by which a checksum file names its algorithm. */
  function Suffix(checksum: Option<Algo>): string {
    if checksum.Some? then "." + ExtensionOf(checksum.value) else ""
  }

  lemma AlgoOfExtension(algo: Algo)
    ensures AlgoOf(ExtensionOf(algo)) == Some(algo)
    ensures Lacks(ExtensionOf(algo), '.') && Lacks(ExtensionOf(algo), '/')
  {
    assert "sha256"[3] != "sha512"[3];
  }

  lemma ExtensionOfAlgo(ext: string)
    requires AlgoOf(ext).Some?
    ensures ExtensionOf(AlgoOf(ext).value) == ext
  {
  }

  lemma {:induction false} SegmentsUntrimmed(path: string)
    ensures Segments(path) == NonEmpty(Split(path, '/'))
  {
    if path != "" && path[0] == '/' {
      SegmentsUntrimmed(path[1..]);
      assert Split(path, '/')[1..] == Split(path[1..], '/');
    }
  }

  lemma {:induction false} NonEmptyConcat(a: seq<string>, b: seq<string>)
    ensures NonEmpty(a + b) == NonEmpty(a) + NonEmpty(b)
  {
    if a == [] {
      assert a + b == b;
    } else {
      assert (a + b)[1..] == a[1..] + b;
      NonEmptyConcat(a[1..], b);
    }
  }

  ghost predicate NoneEmpty(parts: seq<string>) { forall i | 0 <= i < |parts| :: parts[i] != "" }

  lemma {:induction false} NonEmptyKeeps(parts: seq<string>)
    ensures |NonEmpty(parts)| <= |parts|
    ensures NonEmpty(parts) == parts <==> NoneEmpty(parts)
    ensures forall p | p in NonEmpty(parts) :: p in parts
  {
    if parts != [] {
      NonEmptyKeeps(parts[1..]);
      assert parts == [parts[0]] + parts[1..];
      if NoneEmpty(parts[1..]) && parts[0] != "" {
        assert NoneEmpty(parts);
      }
    }
  }

  predicate IsValid(c: Coordinate) { ValidateCoordinate(c).None? }

  /** Neither empty nor a directory's name for itself or its parent, and free of separators, colons
      and control characters. */
  predicate IsPlain(value: string) {
    && value != "" && value != "." && value != ".."
    && forall i | 0 <= i < |value| ::
         && value[i] !in {'/', '\\', ':'}
         && (0x20 <= value[i] as int < 0x7f || 0xa0 <= value[i] as int)
  }

  lemma LegalIsPlain(value: string)
    ensures IsPlain(value) <==> value != "" && value != "." && value != ".." && AllLegal(value)
  {
  }

  lemma FieldAccepted(field: Field, value: string)
    ensures ValidateField(field, value).None? <==> IsPlain(value)
    ensures var error := ValidateField(field, value);
      error.Some? ==>
        && error.value.field == field
        && (error.value.IllegalCharacter? ==> IsIllegal(error.value.ch) && error.value.ch in value)
  {
    LegalIsPlain(value);
    if FirstIllegal(value).Some? { var i := FirstIllegalIsFirst(value); }
  }

  /** A coordinate is accepted exactly when each of its fields is plain, and an error names a
      field that is not, the ones before it being so. */
  lemma ValidExactly(c: Coordinate)
    ensures IsValid(c) <==>
      && IsPlain(c.group) && IsPlain(c.artifact) && IsPlain(c.version) && IsPlain(c.extension)
      && (c.classifier.Some? ==> IsPlain(c.classifier.value))
    ensures !IsValid(c) ==>
      match ValidateCoordinate(c).value.field
      case GroupId => !IsPlain(c.group)
      case ArtifactId => IsPlain(c.group) && !IsPlain(c.artifact)
      case Version => IsPlain(c.group) && IsPlain(c.artifact) && !IsPlain(c.version)
      case Extension => IsPlain(c.group) && IsPlain(c.artifact) && IsPlain(c.version) && !IsPlain(c.extension)
      case Classifier => c.classifier.Some? && !IsPlain(c.classifier.value)
  {
    FieldAccepted(GroupId, c.group);
    FieldAccepted(ArtifactId, c.artifact);
    FieldAccepted(Version, c.version);
    FieldAccepted(Extension, c.extension);
    if c.classifier.Some? { FieldAccepted(Classifier, c.classifier.value); }
  }

  lemma ValidField(field: Field, value: string)
    requires ValidateField(field, value).None?
    ensures value != "" && value != "." && value != ".." && Lacks(value, '/')
  {
  }

  lemma PathWithSuffix(c: Coordinate, checksum: Option<Algo>)
    ensures RepositoryPath(c) + Suffix(checksum)
         == GroupPath(c) + "/" + c.artifact + "/" + c.version + "/" + (Filename(c) + Suffix(checksum))
  {
  }

  lemma SplitTail(front: string, artifact: string, version: string, name: string)
    requires Lacks(artifact, '/') && Lacks(version, '/') && Lacks(name, '/')
    ensures Split(front + "/" + artifact + "/" + version + "/" + name, '/')
         == Split(front, '/') + [artifact, version, name]
  {
    SplitLast(front, artifact);
    SplitLast(front + "/" + artifact, version);
    SplitLast(front + "/" + artifact + "/" + version, name);
  }

  lemma SplitLast(front: string, last: string)
    requires Lacks(last, '/')
    ensures Split(front + "/" + last, '/') == Split(front, '/') + [last]
  {
    SplitOfSeam(front, last, '/');
    SplitOfPart(last, '/');
  }

  lemma PrintedParts(c: Coordinate, checksum: Option<Algo>)
    requires IsValid(c)
    ensures Split(RepositoryPath(c) + Suffix(checksum), '/')
         == Split(c.group, '.') + [c.artifact, c.version, Filename(c) + Suffix(checksum)]
  {
    FieldsLackSlash(c, checksum);
    SplitOfReplace(c.group, '.', '/');
    SplitTail(GroupPath(c), c.artifact, c.version, Filename(c) + Suffix(checksum));
    PathWithSuffix(c, checksum);
  }

  lemma FieldsLackSlash(c: Coordinate, checksum: Option<Algo>)
    requires IsValid(c)
    ensures Lacks(c.group, '/') && Lacks(c.artifact, '/') && Lacks(c.version, '/')
    ensures Lacks(Filename(c) + Suffix(checksum), '/')
  {
    ValidField(GroupId, c.group);
    ValidField(ArtifactId, c.artifact);
    ValidField(Version, c.version);
    ValidField(Extension, c.extension);
    if c.classifier.Some? { ValidField(Classifier, c.classifier.value); }
    if checksum.Some? { AlgoOfExtension(checksum.value); }
  }

  lemma {:induction false} PrintedSegments(c: Coordinate, checksum: Option<Algo>)
    requires IsValid(c)
    ensures Segments(RepositoryPath(c) + Suffix(checksum))
         == NonEmpty(Split(c.group, '.')) + [c.artifact, c.version, Filename(c) + Suffix(checksum)]
  {
    var tail := [c.artifact, c.version, Filename(c) + Suffix(checksum)];
    PrintedParts(c, checksum);
    SegmentsUntrimmed(RepositoryPath(c) + Suffix(checksum));
    NonEmptyConcat(Split(c.group, '.'), tail);
    ValidField(ArtifactId, c.artifact);
    ValidField(Version, c.version);
    assert NoneEmpty(tail);
    NonEmptyKeeps(tail);
  }

  /** No coordinate that validation lets through prints a path that climbs: no segment of it is
      the current or the parent directory. */
  lemma NeverClimbs(c: Coordinate)
    requires IsValid(c)
    ensures "." !in Split(RepositoryPath(c), '/') && ".." !in Split(RepositoryPath(c), '/')
  {
    PrintedParts(c, None);
    JoinOfSplit(c.group, '.');
    assert RepositoryPath(c) + Suffix(None) == RepositoryPath(c);
    assert Filename(c) + Suffix(None) == Filename(c);
    ValidField(ArtifactId, c.artifact);
    ValidField(Version, c.version);
    assert Filename(c)[|c.artifact|] == '-';
    forall i | 0 <= i < |Split(c.group, '.')|
      ensures Split(c.group, '.')[i] != "." && Split(c.group, '.')[i] != ".."
    {
      assert Lacks(Split(c.group, '.')[i], '.');
      assert "."[0] == '.' && ".."[0] == '.';
    }
  }

  // ---------------------------------------------------------------- a printed path read back

  /** What follows the last dot. */
  function LastPart(s: string): string { s[LastIndex(s, '.') + 1..] }

  lemma LastPartAtSeam(stem: string, part: string)
    requires Lacks(part, '.')
    ensures LastPart(stem + "." + part) == part
  {
    LastIndexAtSeam(stem, part, '.');
  }

  lemma LastPartOfConcat(stem: string, ext: string)
    ensures LastPart(stem + "." + ext) == LastPart(ext)
  {
    var i := LastIndex(ext, '.');
    if i < 0 {
      LastPartAtSeam(stem, ext);
    } else {
      var front, part := ext[..i], ext[i + 1..];
      assert ext == front + "." + part;
      SeamRegrouped(stem, front, part);
      LastPartAtSeam(stem + "." + front, part);
    }
  }

  lemma SeamRegrouped(stem: string, front: string, part: string)
    ensures stem + "." + (front + "." + part) == stem + "." + front + "." + part
  {
  }

  lemma StripAtSeam(stem: string, part: string)
    requires Lacks(part, '.')
    ensures StripChecksum(stem + "." + part)
         == if AlgoOf(part).Some? then (stem, AlgoOf(part)) else (stem + "." + part, None)
  {
    var name := stem + "." + part;
    LastIndexAtSeam(stem, part, '.');
    assert name[|stem| + 1..] == part && name[..|stem|] == stem;
  }

  lemma StripPlain(stem: string, ext: string)
    ensures StripChecksum(stem + "." + ext).1 == AlgoOf(LastPart(ext))
    ensures AlgoOf(LastPart(ext)).None? ==> StripChecksum(stem + "." + ext).0 == stem + "." + ext
  {
    LastPartOfConcat(stem, ext);
    assert (stem + "." + ext)[|stem|] == '.';
  }

  /** Only an extension that ends like a checksum is mistaken for one. */
  lemma StripPrinted(c: Coordinate, checksum: Option<Algo>)
    ensures checksum.Some? || AlgoOf(LastPart(c.extension)).None?
        ==> StripChecksum(Filename(c) + Suffix(checksum)) == (Filename(c), checksum)
    ensures checksum.None? && AlgoOf(LastPart(c.extension)).Some?
        ==> StripChecksum(Filename(c) + Suffix(checksum)).1.Some?
  {
    if checksum.Some? {
      AlgoOfExtension(checksum.value);
      StripAtSeam(Filename(c), ExtensionOf(checksum.value));
      assert Filename(c) + Suffix(checksum) == Filename(c) + "." + ExtensionOf(checksum.value);
    } else {
      StripPlain(Stem(c), c.extension);
      assert Filename(c) + Suffix(checksum) == Filename(c);
    }
  }

  const ARCHIVES := ["gz", "bz2", "xz", "zst"]

  lemma CompoundIsArchive(e: string)
    requires e in COMPOUND
    ensures e == "tar." + LastPart(e) && LastPart(e) in ARCHIVES
  {
    assert e == "tar.gz" || e == "tar.bz2" || e == "tar.xz" || e == "tar.zst";
    LastIndexAtSeam("tar", e[4..], '.');
    assert e == "tar" + "." + e[4..];
  }

  lemma ArchiveIsCompound(e: string)
    requires e in ARCHIVES
    ensures "tar." + e in COMPOUND
  {
    assert "tar." + "gz" == COMPOUND[0] && "tar." + "bz2" == COMPOUND[1];
    assert "tar." + "xz" == COMPOUND[2] && "tar." + "zst" == COMPOUND[3];
  }

  /** A classifier that, followed by this extension, would read as a shorter classifier and an archive. */
  predicate SwallowsTar(classifier: string, extension: string) {
    extension in ARCHIVES && EndsWith(classifier, ".tar") && |classifier| > |".tar"|
  }

  /** When a classifier and an extension survive being written with a dot between them. */
  predicate Separable(classifier: string, extension: string) {
    extension in COMPOUND || ('.' !in extension && !SwallowsTar(classifier, extension))
  }

  lemma CompoundUnique(classifier: string, extension: string, x: string, e: string)
    requires extension in COMPOUND && e in COMPOUND && classifier + "." + extension == x + "." + e
    ensures extension == e && classifier == x
  {
    LastPartOfConcat(classifier, extension);
    LastPartOfConcat(x, e);
    CompoundIsArchive(extension);
    CompoundIsArchive(e);
    assert (classifier + "." + extension)[..|classifier|] == classifier;
    assert (x + "." + e)[..|x|] == x;
  }

  lemma SplitCompoundPrinted(classifier: string, extension: string)
    requires classifier != "" && extension in COMPOUND
    ensures SplitCompound(classifier + "." + extension, COMPOUND) == Some((classifier, extension))
  {
    var tail := classifier + "." + extension;
    assert tail == classifier + ("." + extension);
    assert ClassifiedAs(tail, extension);
    var r := SplitCompound(tail, COMPOUND);
    CompoundUnique(classifier, extension, r.value.0, r.value.1);
  }

  lemma SplitCompoundPlain(classifier: string, extension: string)
    requires Lacks(extension, '.')
    ensures SplitCompound(classifier + "." + extension, COMPOUND).Some? <==> SwallowsTar(classifier, extension)
  {
    var tail := classifier + "." + extension;
    var r := SplitCompound(tail, COMPOUND);
    if r.Some? { PlainSwallows(classifier, extension, r.value.0, r.value.1); }
    if SwallowsTar(classifier, extension) { SwallowedMatches(classifier, extension); }
  }

  lemma SwallowedMatches(classifier: string, extension: string)
    requires SwallowsTar(classifier, extension)
    ensures "tar." + extension in COMPOUND && ClassifiedAs(classifier + "." + extension, "tar." + extension)
  {
    ArchiveIsCompound(extension);
    assert classifier + "." + extension == classifier[..|classifier| - 4] + ("." + ("tar." + extension));
  }

  lemma SameLastPart(classifier: string, extension: string, x: string, e: string)
    requires Lacks(extension, '.') && classifier + "." + extension == x + "." + e
    ensures LastPart(e) == extension
  {
    LastPartOfConcat(x, e);
    LastPartOfConcat(classifier, extension);
  }

  lemma PlainSwallows(classifier: string, extension: string, x: string, e: string)
    requires Lacks(extension, '.') && e in COMPOUND && x != "" && classifier + "." + extension == x + "." + e
    ensures SwallowsTar(classifier, extension)
  {
    CompoundIsArchive(e);
    SameLastPart(classifier, extension, x, e);
    assert |classifier| == |x| + 4;
    assert (classifier + "." + extension)[..|x| + 4] == (x + "." + e)[..|x| + 4];
    assert (x + "." + e)[..|x| + 4] == x + ".tar";
    assert (classifier + "." + extension)[..|classifier|] == classifier;
    assert (x + ".tar")[|x|..] == ".tar";
  }

  lemma SplitLastDotPrinted(classifier: string, extension: string)
    requires classifier != "" && extension != "" && Lacks(extension, '.')
    ensures SplitAtLastDot(classifier + "." + extension) == Some((classifier, extension))
  {
    var tail := classifier + "." + extension;
    LastIndexAtSeam(classifier, extension, '.');
    assert tail[..|classifier|] == classifier && tail[|classifier| + 1..] == extension;
  }

  lemma CompoundsDotted(e: string)
    requires e in COMPOUND
    ensures '.' in e
  {
    CompoundIsArchive(e);
    assert e[3] == '.';
  }

  lemma SplitPrinted(classifier: string, extension: string)
    requires classifier != "" && extension != ""
    ensures SplitClassifier(classifier + "." + extension, COMPOUND) == Some((classifier, extension))
       <==> Separable(classifier, extension)
  {
    var r := SplitCompound(classifier + "." + extension, COMPOUND);
    if r.Some? { CompoundsDotted(r.value.1); }
    if extension in COMPOUND {
      SplitCompoundPrinted(classifier, extension);
    } else if '.' !in extension {
      SplitCompoundPlain(classifier, extension);
      SplitLastDotPrinted(classifier, extension);
    }
  }

  lemma SplitRestPrinted(classifier: Option<string>, extension: string)
    requires extension != "" && classifier != Some("")
    ensures SplitRest(Rest(classifier, extension)) == Some((classifier, extension))
       <==> (classifier.Some? ==> Separable(classifier.value, extension))
  {
    if classifier.Some? {
      var tail := classifier.value + "." + extension;
      assert Rest(classifier, extension) == "-" + tail;
      assert ("-" + tail)[1..] == tail;
      SplitPrinted(classifier.value, extension);
    } else {
      assert Rest(classifier, extension) == "." + extension;
      assert ("." + extension)[1..] == extension;
    }
  }

  lemma SplitFilenameAt(artifact: string, version: string, rest: string)
    ensures SplitFilename(artifact, version, artifact + "-" + version + rest) == SplitRest(rest)
  {
    var prefix := artifact + "-" + version;
    assert (prefix + rest)[|prefix|..] == rest;
  }

  lemma SplitFilenamePrinted(c: Coordinate)
    requires IsValid(c)
    ensures SplitFilename(c.artifact, c.version, Filename(c)) == Some((c.classifier, c.extension))
       <==> (c.classifier.Some? ==> Separable(c.classifier.value, c.extension))
  {
    ValidField(Extension, c.extension);
    if c.classifier.Some? { ValidField(Classifier, c.classifier.value); }
    SplitRestPrinted(c.classifier, c.extension);
    SplitFilenameAt(c.artifact, c.version, Rest(c.classifier, c.extension));
    FilenameIs(c);
  }

  lemma FilenameIs(c: Coordinate)
    ensures Filename(c) == c.artifact + "-" + c.version + Rest(c.classifier, c.extension)
  {
  }

  lemma GroupReadBack(group: string)
    requires group != ""
    ensures Join(NonEmpty(Split(group, '.')), '.') == group <==> NoneEmpty(Split(group, '.'))
  {
    var parts := Split(group, '.');
    JoinOfSplit(group, '.');
    NonEmptyKeeps(parts);
    if NonEmpty(parts) != [] {
      assert forall p | p in parts :: Lacks(p, '.');
      SplitOfJoin(NonEmpty(parts), '.');
    }
  }

  /** When a coordinate's path, or the path of one of its checksums, identifies it. */
  ghost predicate Readable(c: Coordinate, checksum: Option<Algo>) {
    && NoneEmpty(Split(c.group, '.'))
    && MetadataSuffix(Filename(c) + Suffix(checksum)).None?
    && (checksum.None? ==> AlgoOf(LastPart(c.extension)).None?)
    && (c.classifier.Some? ==> Separable(c.classifier.value, c.extension))
  }

  /** Parsing undoes printing exactly for readable coordinates. */
  lemma PrintedReadBack(c: Coordinate, checksum: Option<Algo>)
    requires IsValid(c)
    ensures ParseLayoutPath(RepositoryPath(c) + Suffix(checksum)) == Ok(c, ClassOf(checksum)) <==> Readable(c, checksum)
  {
    var name := Filename(c) + Suffix(checksum);
    var group := NonEmpty(Split(c.group, '.'));
    var segments := Segments(RepositoryPath(c) + Suffix(checksum));
    PrintedSegments(c, checksum);
    ValidField(GroupId, c.group);
    GroupReadBack(c.group);
    assert segments[..|segments| - 3] == group;
    if MetadataSuffix(name).None? && |segments| >= 4 {
      ArtifactReadBack(c, checksum, group);
    }
  }

  lemma ArtifactReadBack(c: Coordinate, checksum: Option<Algo>, group: seq<string>)
    requires IsValid(c)
    ensures ParseArtifact(group, c.artifact, c.version, Filename(c) + Suffix(checksum)) == Ok(c, ClassOf(checksum))
       <==> && Join(group, '.') == c.group
            && (checksum.None? ==> AlgoOf(LastPart(c.extension)).None?)
            && (c.classifier.Some? ==> Separable(c.classifier.value, c.extension))
  {
    var (stripped, found) := StripChecksum(Filename(c) + Suffix(checksum));
    StripPrinted(c, checksum);
    if checksum.None? && AlgoOf(LastPart(c.extension)).Some? {
      assert ParseStripped(group, c.artifact, c.version, stripped, found) != Ok(c, Artifact);
    } else {
      StrippedReadBack(c, checksum, group);
    }
  }

  lemma StrippedReadBack(c: Coordinate, checksum: Option<Algo>, group: seq<string>)
    requires IsValid(c)
    ensures ParseStripped(group, c.artifact, c.version, Filename(c), checksum) == Ok(c, ClassOf(checksum))
       <==> Join(group, '.') == c.group && (c.classifier.Some? ==> Separable(c.classifier.value, c.extension))
  {
    SplitFilenamePrinted(c);
  }

  // ---------------------------------------------------------------- an accepted path printed again

  lemma {:induction false} JoinAppend(parts: seq<string>, last: string, c: char)
    requires parts != []
    ensures Join(parts + [last], c) == Join(parts, c) + [c] + last
  {
    if |parts| > 1 {
      JoinAppend(parts[1..], last, c);
      assert (parts + [last])[1..] == parts[1..] + [last];
    } else {
      assert (parts + [last])[1..] == [last];
    }
  }

  ghost predicate NoneDotted(parts: seq<string>) { forall i | 0 <= i < |parts| :: Lacks(parts[i], '.') }

  lemma {:induction false} JoinHolds(parts: seq<string>, c: char, d: char)
    requires exists i | 0 <= i < |parts| :: d in parts[i]
    ensures d in Join(parts, c)
  {
    if |parts| > 1 && d !in parts[0] { JoinHolds(parts[1..], c, d); }
  }

  lemma {:induction false} JoinReplaced(parts: seq<string>)
    requires NoneDotted(parts)
    ensures Replace(Join(parts, '.'), '.', '/') == Join(parts, '/')
  {
    if |parts| > 1 {
      JoinReplaced(parts[1..]);
      var rest := Join(parts[1..], '.');
      assert Replace(parts[0], '.', '/') == parts[0];
      assert Replace(parts[0] + "." + rest, '.', '/') == Replace(parts[0], '.', '/') + "/" + Replace(rest, '.', '/');
    }
  }

  /** The dotted form of a group's directories turns back into them just when none holds a dot. */
  lemma GroupRebuilds(group: seq<string>)
    ensures Replace(Join(group, '.'), '.', '/') == Join(group, '/') <==> NoneDotted(group)
  {
    if NoneDotted(group) {
      JoinReplaced(group);
    } else {
      JoinHolds(group, '/', '.');
    }
  }

  lemma SplitClassifierSound(tail: string, compounds: seq<string>)
    ensures var split := SplitClassifier(tail, compounds);
      split.Some? ==> split.value.0 + "." + split.value.1 == tail
  {
  }

  lemma RestRebuilds(rest: string)
    ensures SplitRest(rest).Some? ==> Rest(SplitRest(rest).value.0, SplitRest(rest).value.1) == rest
  {
    if rest != "" {
      assert rest == [rest[0]] + rest[1..];
      SplitClassifierSound(rest[1..], COMPOUND);
    }
  }

  lemma SplitFilenameSome(artifact: string, version: string, name: string) returns (rest: string)
    requires SplitFilename(artifact, version, name).Some?
    ensures name == artifact + "-" + version + rest
    ensures SplitRest(rest) == SplitFilename(artifact, version, name)
  {
    rest := name[|artifact + "-" + version|..];
  }

  lemma FilenameRebuilds(c: Coordinate, name: string)
    requires SplitFilename(c.artifact, c.version, name) == Some((c.classifier, c.extension))
    ensures Filename(c) == name
  {
    var rest := SplitFilenameSome(c.artifact, c.version, name);
    RestRebuilds(rest);
    FilenameIs(c);
  }

  lemma ChecksumRebuilds(name: string)
    ensures StripChecksum(name).0 + Suffix(StripChecksum(name).1) == name
  {
    var dot := LastIndex(name, '.');
    if dot >= 0 {
      var part := name[dot + 1..];
      assert name == name[..dot] + "." + part;
      if AlgoOf(part).Some? { RejoinSuffix(name[..dot], part, name); }
    }
  }

  lemma RejoinSuffix(stem: string, part: string, name: string)
    requires AlgoOf(part).Some? && stem + "." + part == name
    ensures stem + Suffix(AlgoOf(part)) == name
  {
    SuffixOfAlgo(part);
    assert stem + ("." + part) == name;
  }

  lemma SuffixOfAlgo(ext: string)
    requires AlgoOf(ext).Some?
    ensures Suffix(AlgoOf(ext)) == "." + ext
  {
    ExtensionOfAlgo(ext);
  }

  lemma MetadataRebuilds(name: string)
    requires MetadataSuffix(name).Some?
    ensures METADATA + Suffix(MetadataSuffix(name).value) == name
  {
    if name != METADATA { RejoinSuffix(METADATA, name[|METADATA| + 1..], name); }
  }

  /** The path a classification stands for. */
  function PathOf(c: Coordinate, cls: PathClass): string {
    match cls
    case Artifact => RepositoryPath(c)
    case Checksum(algo) => RepositoryPath(c) + Suffix(Some(algo))
    case Metadata(versionLevel, checksum) =>
      var level := if versionLevel then "/" + c.version else "";
      GroupPath(c) + "/" + c.artifact + level + "/" + METADATA + Suffix(checksum)
  }

  /** How many of the leading segments name the group. */
  function GroupDepth(segments: seq<string>, cls: PathClass): int {
    if cls.Metadata? && !cls.versionLevel then |segments| - 2 else |segments| - 3
  }

  lemma ParsedFields(group: seq<string>, artifact: string, version: string, name: string, c: Coordinate, cls: PathClass)
    requires ParseArtifact(group, artifact, version, name) == Ok(c, cls)
    ensures IsValid(c) && cls == ClassOf(StripChecksum(name).1)
    ensures c.group == Join(group, '.') && c.artifact == artifact && c.version == version
    ensures SplitFilename(artifact, version, StripChecksum(name).0) == Some((c.classifier, c.extension))
  {
  }

  lemma RebuiltArtifact(group: seq<string>, artifact: string, version: string, name: string,
                        c: Coordinate, cls: PathClass)
    requires ParseArtifact(group, artifact, version, name) == Ok(c, cls)
    ensures IsValid(c) && !cls.Metadata?
    ensures c.group == Join(group, '.')
    ensures PathOf(c, cls) == GroupPath(c) + "/" + artifact + "/" + version + "/" + name
  {
    ParsedFields(group, artifact, version, name, c, cls);
    ChecksumRebuilds(name);
    FilenameRebuilds(c, StripChecksum(name).0);
    PathWithSuffix(c, StripChecksum(name).1);
    PathOfClass(c, StripChecksum(name).1);
  }

  lemma PathOfClass(c: Coordinate, checksum: Option<Algo>)
    ensures PathOf(c, ClassOf(checksum)) == RepositoryPath(c) + Suffix(checksum)
  {
  }

  lemma RebuiltMetadata(segments: seq<string>, c: Coordinate, cls: PathClass)
    requires |segments| >= 3 && MetadataSuffix(segments[|segments| - 1]).Some?
    requires ClassifyMetadata(segments, MetadataSuffix(segments[|segments| - 1]).value) == Ok(c, cls)
    ensures IsValid(c) && cls.Metadata? && c.classifier.None? && c.extension == "pom"
    ensures cls.versionLevel <==> |segments| >= 4 && HasDigit(segments[|segments| - 2])
    ensures !cls.versionLevel ==> c.version == "index"
    ensures METADATA + Suffix(cls.checksum) == segments[|segments| - 1]
    ensures var depth := GroupDepth(segments, cls);
      && 1 <= depth < |segments| - 1
      && c.group == Join(segments[..depth], '.') && c.artifact == segments[depth]
      && (cls.versionLevel ==> c.version == segments[depth + 1])
  {
    MetadataRebuilds(segments[|segments| - 1]);
  }

  lemma JoinTail(group: seq<string>, a: string, b: string)
    requires group != []
    ensures Join(group + [a] + [b], '/') == Join(group, '/') + "/" + a + "/" + b
  {
    JoinAppend(group, a, '/');
    JoinAppend(group + [a], b, '/');
  }

  lemma JoinLongTail(group: seq<string>, a: string, b: string, last: string)
    requires group != []
    ensures Join(group + [a] + [b] + [last], '/') == Join(group, '/') + "/" + a + "/" + b + "/" + last
  {
    JoinTail(group, a, b);
    JoinAppend(group + [a] + [b], last, '/');
  }

  lemma SameTail(x: string, y: string, a: string, b: string)
    ensures x + "/" + a + "/" + b == y + "/" + a + "/" + b <==> x == y
  {
    var tail := "/" + a + "/" + b;
    assert x + "/" + a + "/" + b == x + tail;
    assert y + "/" + a + "/" + b == y + tail;
    if x + tail == y + tail {
      assert x == (x + tail)[..|x|] && y == (y + tail)[..|y|];
    }
  }

  lemma SameLongTail(x: string, y: string, a: string, b: string, last: string)
    ensures x + "/" + a + "/" + b + "/" + last == y + "/" + a + "/" + b + "/" + last <==> x == y
  {
    SameTail(x + "/" + a, y + "/" + a, b, last);
    if x + "/" + a == y + "/" + a {
      assert x == (x + "/" + a)[..|x|] && y == (y + "/" + a)[..|y|];
    }
  }

  lemma ArtifactPathRebuilds(group: seq<string>, artifact: string, version: string, name: string, groupPath: string)
    requires group != [] && groupPath == Replace(Join(group, '.'), '.', '/')
    ensures var path := groupPath + "/" + artifact + "/" + version + "/" + name;
      path == Join(group + [artifact] + [version] + [name], '/') <==> NoneDotted(group)
  {
    JoinLongTail(group, artifact, version, name);
    SameLongTail(groupPath, Join(group, '/'), artifact, version, name);
    GroupRebuilds(group);
  }

  lemma MetadataPathRebuilds(group: seq<string>, artifact: string, name: string, groupPath: string)
    requires group != [] && groupPath == Replace(Join(group, '.'), '.', '/')
    ensures groupPath + "/" + artifact + "/" + name == Join(group + [artifact] + [name], '/') <==> NoneDotted(group)
  {
    JoinTail(group, artifact, name);
    SameTail(groupPath, Join(group, '/'), artifact, name);
    GroupRebuilds(group);
  }

  /** That a path is the one its classification stands for, just when its group directories are free of dots. */
  ghost predicate Rebuilds(segments: seq<string>, c: Coordinate, cls: PathClass) {
    var depth := GroupDepth(segments, cls);
    && IsValid(c)
    && 1 <= depth < |segments|
    && (PathOf(c, cls) == Join(segments, '/') <==> NoneDotted(segments[..depth]))
  }

  lemma ArtifactFieldsRebuild(segments: seq<string>, group: seq<string>, a: string, v: string, name: string,
                              c: Coordinate, cls: PathClass)
    requires IsValid(c) && !cls.Metadata? && group != [] && c.group == Join(group, '.')
    requires segments == group + [a] + [v] + [name]
    requires PathOf(c, cls) == GroupPath(c) + "/" + a + "/" + v + "/" + name
    ensures Rebuilds(segments, c, cls)
  {
    ArtifactPathRebuilds(group, a, v, name, GroupPath(c));
    assert segments[..|segments| - 3] == group;
  }

  lemma LastThree(segments: seq<string>)
    requires |segments| >= 3
    ensures var n := |segments|;
      segments == segments[..n - 3] + [segments[n - 3]] + [segments[n - 2]] + [segments[n - 1]]
  {
  }

  lemma ArtifactRebuilds(segments: seq<string>, c: Coordinate, cls: PathClass)
    requires var n := |segments|;
      n >= 4 && ParseArtifact(segments[..n - 3], segments[n - 3], segments[n - 2], segments[n - 1]) == Ok(c, cls)
    ensures Rebuilds(segments, c, cls)
  {
    var n := |segments|;
    var group, a, v, name := segments[..n - 3], segments[n - 3], segments[n - 2], segments[n - 1];
    LastThree(segments);
    RebuiltArtifact(group, a, v, name, c, cls);
    ArtifactFieldsRebuild(segments, group, a, v, name, c, cls);
  }

  lemma MetadataRebuilt(segments: seq<string>, c: Coordinate, cls: PathClass)
    requires |segments| >= 3 && MetadataSuffix(segments[|segments| - 1]).Some?
    requires ClassifyMetadata(segments, MetadataSuffix(segments[|segments| - 1]).value) == Ok(c, cls)
    ensures Rebuilds(segments, c, cls)
  {
    RebuiltMetadata(segments, c, cls);
    MetadataFieldsRebuild(segments, c, cls);
  }

  lemma MetadataFieldsRebuild(segments: seq<string>, c: Coordinate, cls: PathClass)
    requires |segments| >= 3 && IsValid(c) && cls.Metadata?
    requires METADATA + Suffix(cls.checksum) == segments[|segments| - 1]
    requires var depth := GroupDepth(segments, cls);
      && 1 <= depth < |segments| - 1
      && c.group == Join(segments[..depth], '.') && c.artifact == segments[depth]
      && (cls.versionLevel ==> c.version == segments[depth + 1])
    ensures Rebuilds(segments, c, cls)
  {
    var name := segments[|segments| - 1];
    var group := segments[..GroupDepth(segments, cls)];
    if cls.versionLevel {
      assert segments == group + [c.artifact] + [c.version] + [name];
      VersionFieldsRebuild(segments, group, c, cls.checksum, name);
    } else {
      assert segments == group + [c.artifact] + [name];
      ArtifactLevelRebuild(segments, group, c, cls.checksum, name);
    }
  }

  lemma VersionFieldsRebuild(segments: seq<string>, group: seq<string>, c: Coordinate,
                             checksum: Option<Algo>, name: string)
    requires IsValid(c) && group != [] && c.group == Join(group, '.') && name == METADATA + Suffix(checksum)
    requires segments == group + [c.artifact] + [c.version] + [name]
    ensures Rebuilds(segments, c, Metadata(true, checksum))
  {
    VersionMetadataPath(c, checksum, name);
    ArtifactPathRebuilds(group, c.artifact, c.version, name, GroupPath(c));
    assert segments[..|segments| - 3] == group;
  }

  lemma ArtifactLevelRebuild(segments: seq<string>, group: seq<string>, c: Coordinate,
                             checksum: Option<Algo>, name: string)
    requires IsValid(c) && group != [] && c.group == Join(group, '.') && name == METADATA + Suffix(checksum)
    requires segments == group + [c.artifact] + [name]
    ensures Rebuilds(segments, c, Metadata(false, checksum))
  {
    ArtifactMetadataPath(c, checksum, name);
    MetadataPathRebuilds(group, c.artifact, name, GroupPath(c));
    assert segments[..|segments| - 2] == group;
  }

  lemma VersionMetadataPath(c: Coordinate, checksum: Option<Algo>, name: string)
    requires name == METADATA + Suffix(checksum)
    ensures PathOf(c, Metadata(true, checksum)) == GroupPath(c) + "/" + c.artifact + "/" + c.version + "/" + name
  {
  }

  lemma ArtifactMetadataPath(c: Coordinate, checksum: Option<Algo>, name: string)
    requires name == METADATA + Suffix(checksum)
    ensures PathOf(c, Metadata(false, checksum)) == GroupPath(c) + "/" + c.artifact + "/" + name
  {
  }

  /** Every accepted path is, up to surplus slashes, the path of what it was read as, provided no
      directory of its group holds a dot. A group directory with a dot in it is never reproduced. */
  lemma AcceptedRebuilds(path: string)
    requires ParseLayoutPath(path).Ok?
    ensures Rebuilds(Segments(path), ParseLayoutPath(path).coordinate, ParseLayoutPath(path).class_)
  {
    var segments := Segments(path);
    var Ok(c, cls) := ParseLayoutPath(path);
    if MetadataSuffix(segments[|segments| - 1]).Some? {
      MetadataRebuilt(segments, c, cls);
    } else {
      ArtifactRebuilds(segments, c, cls);
    }
  }

  // ---------------------------------------------------------------- a metadata path read back

  /** The segments after those of the group. */
  function MetadataTail(c: Coordinate, versionLevel: bool, name: string): seq<string> {
    if versionLevel then [c.artifact, c.version, name] else [c.artifact, name]
  }

  lemma MetadataName(checksum: Option<Algo>)
    ensures MetadataSuffix(METADATA + Suffix(checksum)) == Some(checksum)
    ensures Lacks(METADATA + Suffix(checksum), '/') && METADATA + Suffix(checksum) != ""
  {
    if checksum.Some? {
      AlgoOfExtension(checksum.value);
      var name := METADATA + Suffix(checksum);
      assert name == METADATA + "." + ExtensionOf(checksum.value);
      assert name[|METADATA| + 1..] == ExtensionOf(checksum.value);
    } else {
      assert METADATA + "" == METADATA;
    }
  }

  lemma MetadataParts(c: Coordinate, versionLevel: bool, checksum: Option<Algo>)
    requires IsValid(c)
    ensures Split(PathOf(c, Metadata(versionLevel, checksum)), '/')
         == Split(c.group, '.') + MetadataTail(c, versionLevel, METADATA + Suffix(checksum))
  {
    var name := METADATA + Suffix(checksum);
    FieldsLackSlash(c, None);
    MetadataName(checksum);
    SplitOfReplace(c.group, '.', '/');
    if versionLevel {
      VersionMetadataPath(c, checksum, name);
      SplitTail(GroupPath(c), c.artifact, c.version, name);
    } else {
      ArtifactMetadataPath(c, checksum, name);
      SplitLast(GroupPath(c), c.artifact);
      SplitLast(GroupPath(c) + "/" + c.artifact, name);
    }
  }

  lemma MetadataSegments(c: Coordinate, versionLevel: bool, checksum: Option<Algo>)
    requires IsValid(c)
    ensures Segments(PathOf(c, Metadata(versionLevel, checksum)))
         == NonEmpty(Split(c.group, '.')) + MetadataTail(c, versionLevel, METADATA + Suffix(checksum))
  {
    var tail := MetadataTail(c, versionLevel, METADATA + Suffix(checksum));
    MetadataParts(c, versionLevel, checksum);
    SegmentsUntrimmed(PathOf(c, Metadata(versionLevel, checksum)));
    NonEmptyConcat(Split(c.group, '.'), tail);
    MetadataName(checksum);
    ValidField(ArtifactId, c.artifact);
    ValidField(Version, c.version);
    assert NoneEmpty(tail);
    NonEmptyKeeps(tail);
  }

  /** When the path of a metadata document tells which artifact, and which version, it is of: a
      version must look like one, having a digit, and an artifact of a nested group must not. */
  ghost predicate Tells(c: Coordinate, versionLevel: bool) {
    && NoneEmpty(Split(c.group, '.'))
    && (if versionLevel then HasDigit(c.version) else !(HasDigit(c.artifact) && |Split(c.group, '.')| >= 2))
  }

  lemma AcceptsOnly(c: Coordinate, cls: PathClass, was: Coordinate, wasCls: PathClass)
    requires IsValid(c)
    ensures Accept(was, wasCls) == Ok(c, cls) <==> was == c && wasCls == cls
  {
  }

  lemma ClassifiesOnly(c: Coordinate, versionLevel: bool, segments: seq<string>, checksum: Option<Algo>)
    requires IsValid(c) && |segments| >= 3
    ensures ClassifyMetadata(segments, checksum) == Ok(c, Metadata(versionLevel, checksum))
       <==> MetadataTarget(segments) == (c, versionLevel)
  {
    var (was, level) := MetadataTarget(segments);
    AcceptsOnly(c, Metadata(versionLevel, checksum), was, Metadata(level, checksum));
  }

  lemma TargetsVersion(c: Coordinate, group: seq<string>, name: string)
    requires |group| >= 1 && c.classifier.None? && c.extension == "pom"
    ensures MetadataTarget(group + [c.artifact, c.version, name]) == (c, true)
       <==> Join(group, '.') == c.group && HasDigit(c.version)
  {
    var segments := group + [c.artifact, c.version, name];
    assert segments[..|group|] == group && segments[|group|] == c.artifact && segments[|group| + 1] == c.version;
  }

  lemma TargetsArtifact(c: Coordinate, group: seq<string>, name: string)
    requires |group| >= 1 && c.classifier.None? && c.extension == "pom" && c.version == "index"
    ensures MetadataTarget(group + [c.artifact, name]) == (c, false)
       <==> Join(group, '.') == c.group && !(HasDigit(c.artifact) && |group| >= 2)
  {
    var segments := group + [c.artifact, name];
    assert segments[..|group|] == group && segments[|group|] == c.artifact;
  }

  lemma ParsesAsMetadata(path: string, segments: seq<string>, checksum: Option<Algo>)
    requires Segments(path) == segments && segments != [] && MetadataSuffix(segments[|segments| - 1]) == Some(checksum)
    ensures ParseLayoutPath(path) == if |segments| >= 3 then ClassifyMetadata(segments, checksum) else Invalid
  {
    assert ParseSegments(segments) == if |segments| >= 3 then ClassifyMetadata(segments, checksum) else Invalid;
  }

  /** Parsing undoes printing for metadata exactly when the path tells. The fields a metadata path
      does not carry are fixed: no classifier, extension `pom`, and above versions version `index`. */
  lemma MetadataReadBack(c: Coordinate, versionLevel: bool, checksum: Option<Algo>)
    requires IsValid(c) && c.classifier.None? && c.extension == "pom" && (!versionLevel ==> c.version == "index")
    ensures ParseLayoutPath(PathOf(c, Metadata(versionLevel, checksum))) == Ok(c, Metadata(versionLevel, checksum))
       <==> Tells(c, versionLevel)
  {
    var group := NonEmpty(Split(c.group, '.'));
    var path, name := PathOf(c, Metadata(versionLevel, checksum)), METADATA + Suffix(checksum);
    MetadataSegments(c, versionLevel, checksum);
    MetadataName(checksum);
    ParsesAsMetadata(path, group + MetadataTail(c, versionLevel, name), checksum);
    ValidField(GroupId, c.group);
    GroupReadBack(c.group);
    NonEmptyKeeps(Split(c.group, '.'));
    TailTells(c, group, versionLevel, name, checksum);
  }

  /** What the segments of a metadata path are classified as. */
  lemma TailTells(c: Coordinate, group: seq<string>, versionLevel: bool, name: string, checksum: Option<Algo>)
    requires IsValid(c) && c.classifier.None? && c.extension == "pom" && (!versionLevel ==> c.version == "index")
    ensures var segments := group + MetadataTail(c, versionLevel, name);
      |segments| >= 3 && ClassifyMetadata(segments, checksum) == Ok(c, Metadata(versionLevel, checksum))
      <==>
      && group != [] && Join(group, '.') == c.group
      && (if versionLevel then HasDigit(c.version) else !(HasDigit(c.artifact) && |group| >= 2))
  {
    var segments := group + MetadataTail(c, versionLevel, name);
    if |segments| >= 3 { ClassifiesOnly(c, versionLevel, segments, checksum); }
    if group == [] {
      if versionLevel { assert segments[..1] == [c.artifact]; }
    } else if versionLevel {
      TargetsVersion(c, group, name);
    } else {
      TargetsArtifact(c, group, name);
    }
  }

  /** The layout: the parts of the group as directories, the artifact, the version, and the file
      named after artifact, version and classifier. */
  lemma PathIs(c: Coordinate)
    ensures var name := c.artifact + "-" + c.version +
        (if c.classifier.Some? then "-" + c.classifier.value + "." + c.extension else "." + c.extension);
      RepositoryPath(c) == Join(Split(c.group, '.'), '/') + "/" + c.artifact + "/" + c.version + "/" + name
  {
    JoinOfSplit(c.group, '.');
    JoinReplaced(Split(c.group, '.'));
  }

  // ---------------------------------------------------------------- paths that do not come back

  lemma PlainCoordinate(c: Coordinate)
    requires c.group == "g" && c.artifact == "c" && c.version == "1"
    requires c.extension in ["md5", "gz"] && c.classifier in [None, Some("x.tar")]
    ensures IsValid(c)
  {
    assert IsPlain("x.tar");
    ValidExactly(c);
  }

  /** An artifact whose extension is that of a checksum is read as a checksum. */
  lemma ChecksumExtensionMisread()
    ensures var c := Coordinate("g", "c", "1", None, "md5");
      IsValid(c) && ParseLayoutPath(RepositoryPath(c)) != Ok(c, Artifact)
  {
    var c := Coordinate("g", "c", "1", None, "md5");
    PlainCoordinate(c);
    PrintedReadBack(c, None);
    assert RepositoryPath(c) + Suffix(None) == RepositoryPath(c);
    assert LastPart("md5") == "md5";
  }

  lemma TarSwallowed()
    ensures !Separable("x.tar", "gz")
  {
    assert "x.tar"[1..] == ".tar" && ARCHIVES[0] == "gz";
    assert |COMPOUND[0]| == 6 && |COMPOUND[1]| == 7 && |COMPOUND[2]| == 6 && |COMPOUND[3]| == 7;
  }

  /** A classifier ending in `.tar` gives its ending away to an archive extension. */
  lemma ArchiveClassifierMisread()
    ensures var c := Coordinate("g", "c", "1", Some("x.tar"), "gz");
      IsValid(c) && ParseLayoutPath(RepositoryPath(c) + Suffix(None)) != Ok(c, Artifact)
  {
    var c := Coordinate("g", "c", "1", Some("x.tar"), "gz");
    PlainCoordinate(c);
    PrintedReadBack(c, None);
    TarSwallowed();
  }

  lemma DottedSegments(c: Coordinate, path: string)
    requires IsValid(c) && path == c.group + "/" + c.artifact + "/" + c.version + "/" + Filename(c)
    ensures Segments(path) == [c.group, c.artifact, c.version, Filename(c)]
  {
    FieldsLackSlash(c, None);
    assert Filename(c) + Suffix(None) == Filename(c);
    SplitTail(c.group, c.artifact, c.version, Filename(c));
    SplitOfPart(c.group, '/');
    SegmentsUntrimmed(path);
    ValidField(GroupId, c.group);
    ValidField(ArtifactId, c.artifact);
    ValidField(Version, c.version);
    assert NoneEmpty(Split(path, '/'));
    NonEmptyKeeps(Split(path, '/'));
  }

  lemma DottedParses(c: Coordinate, path: string)
    requires IsValid(c) && path == c.group + "/" + c.artifact + "/" + c.version + "/" + Filename(c)
    requires MetadataSuffix(Filename(c)).None? && AlgoOf(LastPart(c.extension)).None?
    requires c.classifier.Some? ==> Separable(c.classifier.value, c.extension)
    ensures ParseLayoutPath(path) == Ok(c, Artifact)
  {
    DottedSegments(c, path);
    ParsesAsArtifact(path, [c.group], c.artifact, c.version, Filename(c));
    ArtifactReadBack(c, None, [c.group]);
    assert Filename(c) + Suffix(None) == Filename(c);
  }

  lemma ParsesAsArtifact(path: string, group: seq<string>, artifact: string, version: string, name: string)
    requires group != [] && Segments(path) == group + [artifact, version, name] && MetadataSuffix(name).None?
    ensures ParseLayoutPath(path) == ParseArtifact(group, artifact, version, name)
  {
    assert Segments(path)[..|group|] == group;
  }

  /** One directory may name a whole dotted group: the path is accepted as a path of the group,
      but is not the one its coordinate prints. */
  lemma DottedDirectoryMoved(c: Coordinate, path: string)
    requires IsValid(c) && path == c.group + "/" + c.artifact + "/" + c.version + "/" + Filename(c)
    requires MetadataSuffix(Filename(c)).None? && AlgoOf(LastPart(c.extension)).None?
    requires c.classifier.Some? ==> Separable(c.classifier.value, c.extension)
    ensures ParseLayoutPath(path) == Ok(c, Artifact)
    ensures RepositoryPath(c) == path <==> '.' !in c.group
  {
    DottedParses(c, path);
    SameLongTail(GroupPath(c), c.group, c.artifact, c.version, Filename(c));
    GroupRebuilds([c.group]);
    assert [c.group][0] == c.group;
  }
}
