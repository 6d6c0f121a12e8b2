/**
 * The manifest object of rpki-client (struct mft) and the operations that
 * build and check it in place: mft_parse_filehash, mft_parse_flist,
 * mft_parse_econtent, mft_parse and mft_check.
 *
 * The CMS signature check (cms_parse_validate) and the X.509 extension
 * accessors are collaborators: their answers are inputs. The current time is
 * an input. valid_filehash (reading a file and hashing it) is an oracle
 * function passed by the caller.
 */
module ManifestParser {
  import opened Base
  import opened Times
  import opened Asn1
  import opened FileHash
  import opened EContent

  /** The value a struct mft holds: what the model states results about. */
  datatype Manifest = Manifest(
    file: seq<byte>,           // the manifest's own path
    stale: bool,               // the window had closed when it was parsed
    seqnum: Option<nat>,       // manifestNumber (rendered as hex text by the source); not transferred by mft_read
    files: seq<FileEntry>,     // the fileList, empty when stale
    aia: seq<byte>,
    aki: seq<byte>,
    ski: seq<byte>)

  /** What the X.509 accessors x509_get_aia, x509_get_aki and x509_get_ski answer for the signing certificate. */
  datatype Cert = Cert(aia: Option<seq<byte>>, aki: Option<seq<byte>>, ski: Option<seq<byte>>)

  /** The caller's `X509 *` variable, which mft_parse clears on failure. */
  class X509Slot {
    var cert: Option<Cert>

    constructor (c: Option<Cert>)
      ensures cert == c
    {
      cert := c;
    }
  }

  /** struct mft: the result object, filled in place while parsing. */
  class Mft {
    var file: seq<byte>
    var files: array?<FileEntry>   // NULL until the fileList is parsed, and again once stale
    var filesz: nat                // entries of files written so far
    var seqnum: Option<nat>
    var aia: seq<byte>
    var aki: seq<byte>
    var ski: seq<byte>
    var stale: bool

    /** filesz never exceeds the allocated count, and is zero without an array. */
    ghost predicate Valid()
      reads this
    {
      (files == null ==> filesz == 0) && (files != null ==> filesz <= files.Length)
    }

    /** The entries written so far. */
    ghost function Files(): seq<FileEntry>
      reads this, files
      requires Valid()
    {
      if files == null then [] else files[..filesz]
    }

    /** The manifest this object holds. */
    ghost function Value(): Manifest
      reads this, files
      requires Valid()
    {
      Manifest(file, stale, seqnum, Files(), aia, aki, ski)
    }

    /** calloc of the struct followed by strdup of the file name. */
    constructor (fn: seq<byte>)
      ensures Valid() && files == null
      ensures Value() == Manifest(fn, false, None, [], [], [], [])
    {
      file := fn;
      files := null;
      filesz := 0;
      seqnum := None;
      aia, aki, ski := [], [], [];
      stale := false;
    }

    /**
     * mft_parse_filehash: check one FileAndHash and, when it is good, write it
     * at index filesz and increment filesz.
     */
    method ParseFileHash(body: Decoded) returns (ok: bool)
      requires Valid() && files != null && filesz < files.Length
      modifies this`filesz, files
      ensures Valid()
      ensures ok == FileHashOf(body).Ok?
      ensures Files() == if ok then old(Files()) + [FileHashOf(body).value] else old(Files())
    {
      ok := false;
      if body.None? {
        return;
      }
      var s := body.value;
      if |s| != 2 {
        return;
      }
      var file := s[0];
      if !file.Ia5String? {
        return;
      }
      var fn := UntilNul(file.chars);
      if Slash in fn {
        return;
      } else if |fn| <= 4 {
        return;
      }
      var hash := s[1];
      if !hash.BitString? {
        return;
      }
      if |hash.bits| != Sha256DigestLength {
        return;
      }
      files[filesz] := FileEntry(fn, hash.bits);
      filesz := filesz + 1;
      ok := true;
      assert files[..filesz] == old(files[..filesz]) + [FileEntry(fn, hash.bits)];
    }

    /**
     * mft_parse_flist: allocate one slot per fileList element and parse the
     * elements in order, stopping at the first bad one.
     */
    method ParseFileList(body: Decoded) returns (ok: bool)
      requires Valid() && files == null
      modifies this`files, this`filesz
      ensures Valid()
      ensures ok == FileListOf(body).Ok?
      ensures ok ==> Files() == FileListOf(body).value
      ensures body.None? ==> files == null
      ensures body.Some? ==> files != null && fresh(files) && files.Length == |body.value|
    {
      ok := false;
      if body.None? {
        return;
      }
      var s := body.value;
      files := new FileEntry[|s|];
      var i := 0;
      while i < |s|
        invariant 0 <= i <= |s|
        invariant files != null && fresh(files) && files.Length == |s|
        invariant filesz == i
        invariant EntriesOf(s[..i]) == Ok(files[..filesz])
      {
        EntriesStep(s, i);
        var t := s[i];
        if !t.Sequence? {
          EntriesPrefixFails(s, i + 1);
          return;
        }
        var good := ParseFileHash(t.body);
        if !good {
          EntriesPrefixFails(s, i + 1);
          return;
        }
        i := i + 1;
      }
      assert s[..i] == s;
      ok := true;
    }

    /**
     * mft_parse_econtent: walk the five (or six) elements with the index i,
     * storing manifestNumber, checking the window at time now and, when it is
     * current, the hash algorithm and the fileList.
     */
    method ParseEContent(content: Decoded, now: Option<Tm>) returns (rc: int)
      requires Valid() && files == null
      modifies this`seqnum, this`files, this`filesz
      ensures Valid()
      ensures rc == EContentOf(content, now).Rc()
      ensures rc >= 0 ==> seqnum == Some(EContentOf(content, now).seqnum)
      ensures rc == 0 ==> files == null
      ensures rc > 0 ==> Files() == EContentOf(content, now).files
      ensures files != null ==> fresh(files)
    {
      rc := -1;
      if content.None? {
        return;
      }
      var s := content.value;
      if |s| != 5 && |s| != 6 {
        return;
      }
      var i := 0;
      if |s| == 6 {
        // The optional version is present: every value it decodes to, 0 included, is refused.
        return;
      }

      var t := s[i];
      i := i + 1;
      if !t.Integer? {
        return;
      }
      if t.value < 0 {
        return;
      }
      if NumBytes(t.value) > MaxNumberOctets {
        return;
      }
      seqnum := Some(t.value);

      t := s[i];
      i := i + 1;
      if !t.GeneralizedTime? {
        return;
      }
      var from := t.time;
      t := s[i];
      i := i + 1;
      if !t.GeneralizedTime? {
        return;
      }
      var until := t.time;

      rc := CheckValidity(from, until, now).Code();
      if rc != 1 {
        return;
      }
      rc := -1;

      t := s[i];
      i := i + 1;
      if !t.Object? {
        return;
      } else if t.nid != NidSha256 {
        return;
      }

      t := s[i];
      i := i + 1;
      if !t.Sequence? {
        return;
      }
      var ok := ParseFileList(t.body);
      if !ok {
        return;
      }
      rc := 1;
    }

    /**
     * mft_check: look up every entry at <directory of fn>/<entry name> with
     * valid_filehash, without stopping at a mismatch; the names that did not
     * match are reported in order, and the answer is false iff there was one.
     */
    method Check(fn: seq<byte>, valid: (seq<byte>, seq<byte>) -> bool) returns (ok: bool, mismatched: seq<seq<byte>>)
      requires Valid() && IsCString(fn) && Slash in fn && LastIndexOf(fn, Slash) < 0x7fff_ffff
      ensures ok <==> forall k :: 0 <= k < |Files()| ==> valid(EntryPath(fn, Files()[k].name), Files()[k].hash)
      ensures ok <==> mismatched == []
      ensures mismatched == Mismatches(fn, Files(), valid)
    {
      var cp := LastIndexOf(fn, Slash);
      ghost var fs := Files();
      ok := true;
      mismatched := [];
      var i := 0;
      while i < filesz
        invariant 0 <= i <= filesz == |fs|
        invariant ok <==> forall k :: 0 <= k < i ==> valid(EntryPath(fn, fs[k].name), fs[k].hash)
        invariant ok <==> mismatched == []
        invariant mismatched == Mismatches(fn, fs[..i], valid)
      {
        assert fs[..i + 1][..i] == fs[..i];
        var m := files[i];
        assert m == fs[i];
        var path := fn[..cp] + [Slash] + m.name;
        if !valid(path, m.hash) {
          mismatched := mismatched + [m.name];
          ok := false;
        }
        i := i + 1;
      }
      assert fs[..i] == fs;
    }
  }

  /** The path mft_check hashes for an entry: the manifest's directory, a '/', the entry's name. */
  function EntryPath(fn: seq<byte>, name: seq<byte>): seq<byte>
    requires Slash in fn
  {
    fn[..LastIndexOf(fn, Slash)] + [Slash] + name
  }

  /** An entry whose name has no '/' resolves to a file directly inside the manifest's directory. */
  lemma EntryPathStaysInDirectory(fn: seq<byte>, name: seq<byte>)
    requires Slash in fn && Slash !in name
    ensures var path, cp := EntryPath(fn, name), LastIndexOf(fn, Slash);
      Slash in path && LastIndexOf(path, Slash) == cp &&
      path[..cp] == fn[..cp] && path[cp + 1..] == name
  {
    var path, cp := EntryPath(fn, name), LastIndexOf(fn, Slash);
    assert path[cp] == Slash;
    assert path[cp + 1..] == name;
    assert forall j :: cp < j < |path| ==> path[j] == name[j - cp - 1];
  }

  /** The names of the entries that fail valid_filehash, in order. */
  function Mismatches(fn: seq<byte>, fs: seq<FileEntry>, valid: (seq<byte>, seq<byte>) -> bool): seq<seq<byte>>
    requires Slash in fn
  {
    if fs == [] then []
    else
      var last := fs[|fs| - 1];
      Mismatches(fn, fs[..|fs| - 1], valid) + (if valid(EntryPath(fn, last.name), last.hash) then [] else [last.name])
  }

  /** Every failing entry is reported, and only failing entries are. */
  lemma {:induction false} MismatchesExact(fn: seq<byte>, fs: seq<FileEntry>, valid: (seq<byte>, seq<byte>) -> bool)
    requires Slash in fn
    ensures |Mismatches(fn, fs, valid)| <= |fs|
    ensures forall k :: 0 <= k < |fs| && !valid(EntryPath(fn, fs[k].name), fs[k].hash) ==>
      fs[k].name in Mismatches(fn, fs, valid)
    ensures forall x :: x in Mismatches(fn, fs, valid) ==>
      exists k :: 0 <= k < |fs| && fs[k].name == x && !valid(EntryPath(fn, fs[k].name), fs[k].hash)
  {
    if fs != [] {
      var init := fs[..|fs| - 1];
      MismatchesExact(fn, init, valid);
      assert forall k :: 0 <= k < |init| ==> init[k] == fs[k];
    }
  }

  /** With every entry matching, nothing is reported. */
  lemma {:induction false} NoMismatch(fn: seq<byte>, fs: seq<FileEntry>, valid: (seq<byte>, seq<byte>) -> bool)
    requires Slash in fn
    requires forall k :: 0 <= k < |fs| ==> valid(EntryPath(fn, fs[k].name), fs[k].hash)
    ensures Mismatches(fn, fs, valid) == []
  {
    if fs != [] {
      var init := fs[..|fs| - 1];
      assert forall k :: 0 <= k < |init| ==> init[k] == fs[k];
      NoMismatch(fn, init, valid);
    }
  }

  /** When exactly the entry at j fails, the report is exactly its name. */
  lemma {:induction false} OneMismatch(fn: seq<byte>, fs: seq<FileEntry>, valid: (seq<byte>, seq<byte>) -> bool, j: nat)
    requires Slash in fn && j < |fs|
    requires forall k :: 0 <= k < |fs| ==> (valid(EntryPath(fn, fs[k].name), fs[k].hash) <==> k != j)
    ensures Mismatches(fn, fs, valid) == [fs[j].name]
  {
    var init := fs[..|fs| - 1];
    assert forall k :: 0 <= k < |init| ==> init[k] == fs[k];
    if j == |fs| - 1 {
      NoMismatch(fn, init, valid);
    } else {
      OneMismatch(fn, init, valid, j);
    }
  }

  /**
   * mft_parse after a successful CMS check, on the certificate's extensions and
   * the decoded eContent at time now.
   */
  function ParseOf(fn: seq<byte>, cert: Cert, econtent: Decoded, now: Option<Tm>): (r: Option<Manifest>)
    ensures cert.aia.None? || cert.aki.None? || cert.ski.None? ==> r.None?
    ensures EContentOf(econtent, now).Rejected? ==> r.None?
    ensures cert.aia.Some? && cert.aki.Some? && cert.ski.Some? && !EContentOf(econtent, now).Rejected? ==> r.Some?
    ensures r.Some? ==>
      r.value.file == fn && Some(r.value.aia) == cert.aia && Some(r.value.aki) == cert.aki &&
      Some(r.value.ski) == cert.ski && r.value.seqnum == Some(EContentOf(econtent, now).seqnum)
    ensures r.Some? ==> (r.value.stale <==> EContentOf(econtent, now).StaleContent?)
    ensures r.Some? && r.value.stale ==> r.value.files == []
    ensures r.Some? && !r.value.stale ==> r.value.files == EContentOf(econtent, now).files
  {
    if cert.aia.None? || cert.aki.None? || cert.ski.None? then None
    else
      match EContentOf(econtent, now)
      case Rejected(_) => None
      case StaleContent(n) => Some(Manifest(fn, true, Some(n), [], cert.aia.value, cert.aki.value, cert.ski.value))
      case CurrentContent(n, fs) => Some(Manifest(fn, false, Some(n), fs, cert.aia.value, cert.aki.value, cert.ski.value))
  }

  /**
   * mft_parse: cms is what cms_parse_validate yielded (None when the signed
   * object was refused, otherwise the decoded eContent), x509 the certificate
   * it left in the caller's variable. Any failure after the CMS check frees
   * the result and clears *x509.
   */
  method Parse(x509: X509Slot, fn: seq<byte>, cms: Option<Decoded>, now: Option<Tm>) returns (res: Mft?)
    requires cms.Some? ==> x509.cert.Some?
    modifies x509
    ensures cms.None? ==> res == null && x509.cert == old(x509.cert)
    ensures cms.Some? ==>
      var r := ParseOf(fn, old(x509.cert).value, cms.value, now);
      (res == null <==> r.None?) &&
      (res == null ==> x509.cert == None) &&
      (res != null ==> fresh(res) && res.Valid() && res.Value() == r.value && x509.cert == old(x509.cert))
    ensures res != null ==> res.files == null || fresh(res.files)
    ensures res != null && res.stale ==> res.files == null && res.filesz == 0
  {
    if cms.None? {
      return null;
    }
    var cert := x509.cert.value;
    var p := new Mft(fn);
    var rc := false;
    if cert.aia.None? || cert.aki.None? || cert.ski.None? {
      // RFC 6487 section 4.8: AIA, AKI and SKI are all required.
    } else {
      p.aia, p.aki, p.ski := cert.aia.value, cert.aki.value, cert.ski.value;
      var c := p.ParseEContent(cms.value, now);
      if c == 0 {
        // Stale: keep the identity, drop every referenced file.
        p.stale := true;
        p.files := null;
        p.filesz := 0;
        rc := true;
      } else if c != -1 {
        rc := true;
      }
    }
    if !rc {
      x509.cert := None;
      return null;
    }
    res := p;
  }

  /** A manifest whose window has closed is still produced, marked stale, with no files, even when its fileList has entries. */
  lemma StaleKeepsIdentityOnly(fn: seq<byte>, cert: Cert, s: seq<Element>, now: Option<Tm>)
    requires cert.aia.Some? && cert.aki.Some? && cert.ski.Some?
    requires |s| == 5 && s[0].Integer? && 0 <= s[0].value < NumberLimit
    requires s[1].GeneralizedTime? && s[2].GeneralizedTime?
    requires CheckValidity(s[1].time, s[2].time, now) == Stale
    ensures ParseOf(fn, cert, Some(s), now) ==
      Some(Manifest(fn, true, Some(s[0].value), [], cert.aia.value, cert.aki.value, cert.ski.value))
  {
    NumBytesAtMost(s[0].value, MaxNumberOctets);
    NumberLimitIsPow();
    assert EContentOf(Some(s), now) == StaleContent(s[0].value);
  }

  /**
   * A well-formed eContent with a current window, the SHA-256 algorithm and a
   * good fileList gives a current manifest holding exactly that list.
   */
  lemma CurrentAccepted(fn: seq<byte>, cert: Cert, s: seq<Element>, now: Option<Tm>)
    requires cert.aia.Some? && cert.aki.Some? && cert.ski.Some?
    requires |s| == 5 && s[0].Integer? && 0 <= s[0].value < NumberLimit
    requires s[1].GeneralizedTime? && s[2].GeneralizedTime?
    requires CheckValidity(s[1].time, s[2].time, now) == Current
    requires s[3] == Object(NidSha256) && s[4].Sequence? && FileListOf(s[4].body).Ok?
    ensures EContentOf(Some(s), now) == CurrentContent(s[0].value, FileListOf(s[4].body).value)
    ensures ParseOf(fn, cert, Some(s), now) ==
      Some(Manifest(fn, false, Some(s[0].value), FileListOf(s[4].body).value, cert.aia.value, cert.aki.value, cert.ski.value))
    ensures |FileListOf(s[4].body).value| == |s[4].body.value|
  {
    NumBytesAtMost(s[0].value, MaxNumberOctets);
    NumberLimitIsPow();
    EntriesInOrder(s[4].body.value);
  }

  /** A manifest whose thisUpdate is still in the future yields no manifest at all. */
  lemma TooEarlyYieldsNothing(fn: seq<byte>, cert: Cert, s: seq<Element>, from: Tm, until: Tm, now: Tm)
    requires |s| == 5 && s[1] == GeneralizedTime(Some(from)) && s[2] == GeneralizedTime(Some(until))
    requires Before(now, from)
    ensures ParseOf(fn, cert, Some(s), Some(now)).None?
  {
  }

  /** Everything mft_parse hands out: entries well formed, and none at all when stale. */
  lemma ParsedManifestWellFormed(fn: seq<byte>, cert: Cert, econtent: Decoded, now: Option<Tm>)
    requires ParseOf(fn, cert, econtent, now).Some?
    ensures var m := ParseOf(fn, cert, econtent, now).value;
      (forall f :: f in m.files ==> WellFormedEntry(f)) &&
      (m.stale ==> m.files == []) &&
      (m.seqnum.Some? && NumBytes(m.seqnum.value) <= MaxNumberOctets)
  {
    if EContentOf(econtent, now).CurrentContent? {
      CurrentFilesMatchList(econtent.value, now);
    }
  }
}
