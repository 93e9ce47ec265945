/**
 * The ALTO reader: a zip archive of ALTO XML pages. Validation accepts an archive
 * only if every file member is an XML file whose root is an ALTO element in the
 * version 4 namespace or in no namespace, and caches the sorted member names.
 */
module AltoInput {
  import opened Wrappers
  import opened Text
  import opened Sorting
  import opened BaseInput

  const AltoNamespace: string := "http://www.loc.gov/standards/alto/ns-v4#"

  /** ALTOInput.field_names: the base field names plus the section type. */
  const AltoFieldNames: seq<string> := FieldNames + ["section_type"]

  /** The parsed root of a member: a parse failure or the root element's tag. */
  datatype RootResult = ParseError | Root(tag: string)

  /** One entry of the archive's infolist(). */
  datatype ZipEntry = ZipEntry(filename: string, isDir: bool, root: RootResult)

  /** The ValueErrors validation raises. */
  datatype AltoError =
    | NonXmlFile(filename: string)
    | NoXmlFiles
    | InvalidXml(member: string)
    | NotAlto(member: string, tag: string)
    | UnsupportedNamespace(member: string, namespace: string)
  {
    function Message(): string {
      match this
      case NonXmlFile(f) => "Non-XML file found in ALTO zipfile: " + f
      case NoXmlFiles => "ALTO zipfile does not contain any XML files"
      case InvalidXml(m) => "Invalid XML in ALTO zipfile member: " + m
      case NotAlto(m, t) => "File " + m + " is not an ALTO document (root tag " + t + ")"
      case UnsupportedNamespace(m, ns) => "Unsupported ALTO namespace in " + m + ": " + ns
    }
  }

  /** _split_tag: "{ns}local" gives (ns, local); without "}" the local part is empty. */
  function SplitTag(tag: string): (r: (Option<string>, string))
    ensures !StartsWith(tag, "{") ==> r == (None, tag)
    ensures StartsWith(tag, "{") ==> r.0.Some? && "{" + r.0.value + (if '}' in tag then "}" else "") + r.1 == tag
    ensures r.0.Some? ==> '}' !in r.0.value
  {
    if StartsWith(tag, "{") then
      var rest := tag[1..];
      assert tag == "{" + rest;
      if '}' in rest then
        var k := IndexOf(rest, '}');
        assert rest == rest[..k] + "}" + rest[k + 1..];
        (Some(rest[..k]), rest[k + 1..])
      else (Some(rest), "")
    else (None, tag)
  }

  /** Splitting a composed tag gives its parts back. */
  lemma SplitTagRoundTrip(ns: string, local: string)
    requires '}' !in ns
    ensures SplitTag("{" + ns + "}" + local) == (Some(ns), local)
  {
    var tag := "{" + ns + "}" + local;
    assert tag[1..] == ns + "}" + local;
    assert tag[..1] == "{";
    IndexOfAppend(ns, "}" + local, '}');
    assert (ns + "}" + local)[..|ns|] == ns;
    assert (ns + "}" + local)[|ns| + 1..] == local;
  }

  predicate IsXmlName(filename: string) {
    EndsWith(Lower(filename), ".xml")
  }

  /** The error, if any, that the root-tag checks raise for one member. */
  function RootError(member: ZipEntry): Option<AltoError> {
    match member.root
    case ParseError => Some(InvalidXml(member.filename))
    case Root(tag) =>
      var (ns, local) := SplitTag(tag);
      if Lower(local) != "alto" then Some(NotAlto(member.filename, tag))
      else if ns.Some? && ns.value != [] && ns.value != AltoNamespace then Some(UnsupportedNamespace(member.filename, ns.value))
      else None
  }

  /** First pass over the infolist: the file members, or the first non-XML file. */
  function XmlMembers(entries: seq<ZipEntry>): Result<seq<ZipEntry>, AltoError> {
    if entries == [] then Ok([])
    else
      match XmlMembers(entries[..|entries| - 1])
      case Err(e) => Err(e)
      case Ok(ms) =>
        var last := entries[|entries| - 1];
        if last.isDir then Ok(ms)
        else if !IsXmlName(last.filename) then Err(NonXmlFile(last.filename))
        else Ok(ms + [last])
  }

  /** The first error a check reports over xs, scanning in order. */
  function FirstError<T, E>(xs: seq<T>, check: T -> Option<E>): Option<E> {
    if xs == [] then None
    else
      match FirstError(xs[..|xs| - 1], check)
      case Some(e) => Some(e)
      case None => check(xs[|xs| - 1])
  }

  /** Second pass: the first member whose root fails a check. */
  function CheckRoots(members: seq<ZipEntry>): Option<AltoError> {
    FirstError(members, RootError)
  }

  function Filenames(members: seq<ZipEntry>): (names: seq<string>)
    ensures |names| == |members| && forall k :: 0 <= k < |members| ==> names[k] == members[k].filename
  {
    seq(|members|, k requires 0 <= k < |members| => members[k].filename)
  }

  /** The outcome of validating an archive: its member names in archive order, or the error raised. */
  function Validation(entries: seq<ZipEntry>): Result<seq<string>, AltoError> {
    match XmlMembers(entries)
    case Err(e) => Err(e)
    case Ok(ms) =>
      if ms == [] then Err(NoXmlFiles)
      else match CheckRoots(ms)
        case Some(e) => Err(e)
        case None => Ok(Filenames(ms))
  }

  /** A member passes every root check. */
  predicate GoodRoot(member: ZipEntry) {
    RootError(member).None?
  }

  /** An archive is valid when every file is an XML file with a good root, and there is at least one file. */
  predicate ValidArchive(entries: seq<ZipEntry>) {
    (forall k :: 0 <= k < |entries| && !entries[k].isDir ==> IsXmlName(entries[k].filename) && GoodRoot(entries[k]))
    && (exists k :: 0 <= k < |entries| && !entries[k].isDir)
  }

  function Files(entries: seq<ZipEntry>): (fs: seq<ZipEntry>)
    ensures forall m :: m in fs <==> m in entries && !m.isDir
  {
    if entries == [] then []
    else Files(entries[..|entries| - 1]) + (if entries[|entries| - 1].isDir then [] else [entries[|entries| - 1]])
  }

  lemma {:induction false} XmlMembersSpec(entries: seq<ZipEntry>)
    ensures XmlMembers(entries).Ok? <==> forall k :: 0 <= k < |entries| && !entries[k].isDir ==> IsXmlName(entries[k].filename)
    ensures XmlMembers(entries).Ok? ==> XmlMembers(entries).value == Files(entries)
    ensures XmlMembers(entries).Err? ==> XmlMembers(entries).error.NonXmlFile?
    decreases |entries|
  {
    if entries != [] {
      var init := entries[..|entries| - 1];
      XmlMembersSpec(init);
      assert forall k :: 0 <= k < |init| ==> init[k] == entries[k];
    }
  }

  lemma {:induction false} FirstErrorSpec<T, E>(xs: seq<T>, check: T -> Option<E>)
    ensures FirstError(xs, check).None? <==> forall k :: 0 <= k < |xs| ==> check(xs[k]).None?
    decreases |xs|
  {
    if xs != [] {
      var init := xs[..|xs| - 1];
      FirstErrorSpec(init, check);
      assert forall k :: 0 <= k < |init| ==> init[k] == xs[k];
    }
  }

  lemma CheckRootsSpec(members: seq<ZipEntry>)
    ensures CheckRoots(members).None? <==> forall k :: 0 <= k < |members| ==> GoodRoot(members[k])
  {
    FirstErrorSpec(members, RootError);
  }

  lemma {:induction false} FilesEmpty(entries: seq<ZipEntry>)
    ensures Files(entries) == [] <==> forall k :: 0 <= k < |entries| ==> entries[k].isDir
    decreases |entries|
  {
    if entries != [] {
      var init := entries[..|entries| - 1];
      FilesEmpty(init);
      assert forall k :: 0 <= k < |init| ==> init[k] == entries[k];
    }
  }

  lemma GoodFiles(entries: seq<ZipEntry>)
    ensures (forall k :: 0 <= k < |Files(entries)| ==> GoodRoot(Files(entries)[k]))
        <==> (forall k :: 0 <= k < |entries| && !entries[k].isDir ==> GoodRoot(entries[k]))
  {
    var fs := Files(entries);
    if forall k :: 0 <= k < |fs| ==> GoodRoot(fs[k]) {
      forall k | 0 <= k < |entries| && !entries[k].isDir ensures GoodRoot(entries[k]) {
        assert entries[k] in fs;
        var j :| 0 <= j < |fs| && fs[j] == entries[k];
        assert GoodRoot(fs[j]);
      }
    }
    if forall k :: 0 <= k < |entries| && !entries[k].isDir ==> GoodRoot(entries[k]) {
      forall k | 0 <= k < |fs| ensures GoodRoot(fs[k]) {
        assert fs[k] in entries;
        var j :| 0 <= j < |entries| && entries[j] == fs[k];
        assert !entries[j].isDir && GoodRoot(entries[j]);
      }
    }
  }

  /**
   * Validation succeeds exactly on valid archives, and then lists the file members
   * in archive order.
   */
  lemma ValidationAccepts(entries: seq<ZipEntry>)
    ensures Validation(entries).Ok? <==> ValidArchive(entries)
    ensures Validation(entries).Ok? ==> Validation(entries).value == Filenames(Files(entries))
  {
    XmlMembersSpec(entries);
    FilesEmpty(entries);
    if XmlMembers(entries).Ok? {
      CheckRootsSpec(Files(entries));
      GoodFiles(entries);
    }
  }

  /** A non-XML file member is reported before anything else. */
  lemma NonXmlReportedFirst(entries: seq<ZipEntry>, k: nat)
    requires k < |entries| && !entries[k].isDir && !IsXmlName(entries[k].filename)
    ensures Validation(entries).Err? && Validation(entries).error.NonXmlFile?
  {
    XmlMembersSpec(entries);
  }

  /** An archive of directories only is rejected as holding no XML files. */
  lemma DirectoriesOnly(entries: seq<ZipEntry>)
    requires forall k :: 0 <= k < |entries| ==> entries[k].isDir
    ensures Validation(entries) == Err(NoXmlFiles)
  {
    XmlMembersSpec(entries);
    FilesEmpty(entries);
  }

  /** An ALTO reader over one archive, with its validation cache. */
  class ALTOInput {
    const inputFile: string
    const archive: seq<ZipEntry>
    var validated: bool
    var altoMembers: seq<string>

    /** A new reader has not validated its archive yet. */
    constructor(inputFile: string, archive: seq<ZipEntry>)
      ensures this.inputFile == inputFile && this.archive == archive
      ensures !validated && altoMembers == []
    {
      this.inputFile := inputFile;
      this.archive := archive;
      validated := false;
      altoMembers := [];
    }

    /**
     * validate_archive: a no-op once validated; otherwise either raise the archive's error and
     * leave the reader unvalidated, or cache the sorted member names and mark it validated.
     */
    method ValidateArchive() returns (r: Result<(), AltoError>)
      modifies this
      ensures old(validated) ==> r.Ok? && validated && altoMembers == old(altoMembers)
      ensures !old(validated) && Validation(archive).Err? ==>
        r == Err(Validation(archive).error) && !validated && altoMembers == old(altoMembers)
      ensures !old(validated) && Validation(archive).Ok? ==>
        r.Ok? && validated && altoMembers == Sort(Validation(archive).value, StrLe)
    {
      if validated {
        return Ok(());
      }
      var members: seq<ZipEntry> := [];
      for i := 0 to |archive|
        invariant XmlMembers(archive[..i]) == Ok(members)
      {
        var info := archive[i];
        assert archive[..i + 1][..i] == archive[..i];
        if info.isDir {
          continue;
        }
        if !EndsWith(Lower(info.filename), ".xml") {
          XmlMembersPrefixErr(archive, i + 1);
          return Err(NonXmlFile(info.filename));
        }
        members := members + [info];
      }
      assert archive[..|archive|] == archive;
      if members == [] {
        return Err(NoXmlFiles);
      }
      for j := 0 to |members|
        invariant CheckRoots(members[..j]) == None
      {
        assert members[..j + 1][..j] == members[..j];
        var err := RootError(members[j]);
        if err.Some? {
          CheckRootsPrefixErr(members, j + 1);
          return Err(err.value);
        }
      }
      assert members[..|members|] == members;
      altoMembers := Sort(Filenames(members), StrLe);
      validated := true;
      r := Ok(());
    }

    /**
     * get_text: validate first, then one stub chunk of body text per cached member, in
     * sorted order.
     */
    method GetText() returns (r: Result<seq<Record>, AltoError>)
      modifies this
      ensures r.Ok? <==> old(validated) || Validation(archive).Ok?
      ensures r.Ok? ==> validated && |r.value| == |altoMembers|
      ensures r.Ok? ==> forall k :: 0 <= k < |r.value| ==> r.value[k] == map["text" := Str(""), "section_type" := Str(TextSection.Name())]
      ensures !old(validated) && r.Ok? ==> altoMembers == Sort(Validation(archive).value, StrLe)
      ensures old(validated) ==> altoMembers == old(altoMembers)
    {
      var v := ValidateArchive();
      if v.Err? {
        return Err(v.error);
      }
      var chunks: seq<Record> := [];
      for k := 0 to |altoMembers|
        invariant |chunks| == k
        invariant forall i :: 0 <= i < k ==> chunks[i] == map["text" := Str(""), "section_type" := Str(TextSection.Name())]
      {
        chunks := chunks + [map["text" := Str(""), "section_type" := Str(TextSection.Name())]];
      }
      r := Ok(chunks);
    }
  }

  lemma {:induction false} XmlMembersPrefixErr(entries: seq<ZipEntry>, n: nat)
    requires 0 < n <= |entries| && XmlMembers(entries[..n]).Err?
    ensures XmlMembers(entries) == XmlMembers(entries[..n])
    decreases |entries| - n
  {
    if n < |entries| {
      assert entries[..n + 1][..n] == entries[..n];
      XmlMembersPrefixErr(entries, n + 1);
    } else {
      assert entries[..n] == entries;
    }
  }

  lemma {:induction false} CheckRootsPrefixErr(members: seq<ZipEntry>, n: nat)
    requires 0 < n <= |members| && CheckRoots(members[..n]).Some?
    ensures CheckRoots(members) == CheckRoots(members[..n])
    decreases |members| - n
  {
    if n < |members| {
      assert members[..n + 1][..n] == members[..n];
      CheckRootsPrefixErr(members, n + 1);
    } else {
      assert members[..n] == members;
    }
  }

  /** The cached member list is in code-point order and holds exactly the validated names. */
  lemma MembersSorted(entries: seq<ZipEntry>)
    requires Validation(entries).Ok?
    ensures SortedBy(Sort(Validation(entries).value, StrLe), StrLe)
    ensures multiset(Sort(Validation(entries).value, StrLe)) == multiset(Filenames(Files(entries)))
  {
    StrLeTotalPreorder();
    SortSorted(Validation(entries).value, StrLe);
    ValidationAccepts(entries);
  }
}
