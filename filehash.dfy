/**
 * The fileList of a manifest, RFC 6486 section 4.2: a SEQUENCE of FileAndHash,
 * each a SEQUENCE of an IA5String file name and a BIT STRING SHA-256 digest.
 * These functions state what mft_parse_filehash and mft_parse_flist accept;
 * the in-place versions are methods of ManifestParser.Mft.
 */
module FileHash {
  import opened Base
  import opened Asn1

  /** struct mftfile: a file name and its 32-octet digest. */
  datatype FileEntry = FileEntry(name: seq<byte>, hash: seq<byte>)

  /** Why a fileList or one of its entries is rejected. */
  datatype EntryError =
    | BadEntrySequence        // the FileAndHash payload is not a SEQUENCE
    | WrongEntrySize(n: nat)  // not exactly two elements
    | NameNotIa5              // element 0 is not an IA5String
    | PathInName              // the name holds a '/'
    | NameTooShort            // the name has four octets or fewer
    | HashNotBitString        // element 1 is not a BIT STRING
    | BadHashLength(n: nat)   // the digest is not 32 octets
    | EntryNotSequence        // a fileList element is not a SEQUENCE
    | BadListSequence         // the fileList payload is not a SEQUENCE

  /** What every accepted entry looks like. */
  predicate WellFormedEntry(e: FileEntry) {
    IsCString(e.name) && Slash !in e.name && |e.name| > 4 && |e.hash| == Sha256DigestLength
  }

  /** mft_parse_filehash: one FileAndHash, given the decoding of its payload. */
  function FileHashOf(body: Decoded): (r: Result<FileEntry, EntryError>)
    ensures r.Ok? ==> WellFormedEntry(r.value)
  {
    if body.None? then Fail(BadEntrySequence)
    else if |body.value| != 2 then Fail(WrongEntrySize(|body.value|))
    else if !body.value[0].Ia5String? then Fail(NameNotIa5)
    else
      var name := UntilNul(body.value[0].chars);
      if Slash in name then Fail(PathInName)
      else if |name| <= 4 then Fail(NameTooShort)
      else if !body.value[1].BitString? then Fail(HashNotBitString)
      else if |body.value[1].bits| != Sha256DigestLength then Fail(BadHashLength(|body.value[1].bits|))
      else Ok(FileEntry(name, body.value[1].bits))
  }

  /** The rules in one place: an entry is accepted iff all of them hold, and then keeps its name up to any NUL. */
  lemma FileHashAccepted(body: Decoded)
    ensures FileHashOf(body).Ok? <==>
      body.Some? && |body.value| == 2 &&
      body.value[0].Ia5String? &&
      Slash !in UntilNul(body.value[0].chars) && |UntilNul(body.value[0].chars)| > 4 &&
      body.value[1].BitString? && |body.value[1].bits| == 32
    ensures FileHashOf(body).Ok? ==>
      FileHashOf(body).value == FileEntry(UntilNul(body.value[0].chars), body.value[1].bits)
  {
  }

  /** A name holding '/' is rejected whatever surrounds it. */
  lemma SlashRejected(name: seq<byte>, hash: Element)
    requires IsCString(name) && Slash in name
    ensures FileHashOf(Some([Ia5String(name), hash])).Fail?
  {
  }

  /** Every name of four octets or fewer (after cutting at a NUL) is rejected for its length, whatever the hash element. */
  lemma ShortNameRejected(chars: seq<byte>, hash: Element)
    requires Slash !in UntilNul(chars) && |UntilNul(chars)| <= 4
    ensures FileHashOf(Some([Ia5String(chars), hash])) == Fail(NameTooShort)
  {
  }

  /** The boundary of the length rule: a four-octet name ("a.cr") is rejected... */
  lemma FourOctetNameRejected(hash: seq<byte>)
    requires |hash| == 32
    ensures FileHashOf(Some([Ia5String([0x61, 0x2E, 0x63, 0x72]), BitString(hash)])) == Fail(NameTooShort)
  {
    var name: seq<byte> := [0x61, 0x2E, 0x63, 0x72];
    assert IsCString(name) && Slash !in name;
  }

  /** ...and a five-octet one ("a.cer") with a 32-octet digest accepted. */
  lemma FiveOctetNameAccepted(hash: seq<byte>)
    requires |hash| == 32
    ensures FileHashOf(Some([Ia5String([0x61, 0x2E, 0x63, 0x65, 0x72]), BitString(hash)])).Ok?
  {
    var name: seq<byte> := [0x61, 0x2E, 0x63, 0x65, 0x72];
    assert IsCString(name) && Slash !in name;
  }

  /** One element of the fileList: it must be a SEQUENCE holding a valid FileAndHash. */
  function EntryOf(e: Element): Result<FileEntry, EntryError>
  {
    if e.Sequence? then FileHashOf(e.body) else Fail(EntryNotSequence)
  }

  /**
   * The loop of mft_parse_flist over the elements: each in turn, the first bad
   * one failing the whole list.
   */
  function EntriesOf(s: seq<Element>): Result<seq<FileEntry>, EntryError>
  {
    if s == [] then Ok([])
    else
      match EntriesOf(s[..|s| - 1])
      case Fail(e) => Fail(e)
      case Ok(es) =>
        match EntryOf(s[|s| - 1])
        case Fail(e) => Fail(e)
        case Ok(f) => Ok(es + [f])
  }

  /** mft_parse_flist: the fileList, given the decoding of its payload. */
  function FileListOf(body: Decoded): Result<seq<FileEntry>, EntryError>
  {
    if body.None? then Fail(BadListSequence) else EntriesOf(body.value)
  }

  /** Partial success is impossible: the list is accepted iff every element is. */
  lemma {:induction false} EntriesAllOrNothing(s: seq<Element>)
    ensures EntriesOf(s).Ok? <==> forall k :: 0 <= k < |s| ==> EntryOf(s[k]).Ok?
  {
    if s != [] {
      var init := s[..|s| - 1];
      EntriesAllOrNothing(init);
      assert forall k :: 0 <= k < |init| ==> init[k] == s[k];
    }
  }

  /** An accepted list has one entry per element, in input order. */
  lemma {:induction false} EntriesInOrder(s: seq<Element>)
    requires EntriesOf(s).Ok?
    ensures |EntriesOf(s).value| == |s|
    ensures forall k :: 0 <= k < |s| ==> EntryOf(s[k]) == Ok(EntriesOf(s).value[k])
  {
    if s != [] {
      var init := s[..|s| - 1];
      EntriesInOrder(init);
      assert forall k :: 0 <= k < |init| ==> init[k] == s[k];
    }
  }

  /** A rejected list reports the error of its first bad element. */
  lemma {:induction false} EntriesFirstError(s: seq<Element>)
    requires EntriesOf(s).Fail?
    ensures exists k :: 0 <= k < |s| && EntryOf(s[k]) == Fail(EntriesOf(s).error) &&
                        (forall j :: 0 <= j < k ==> EntryOf(s[j]).Ok?)
  {
    var init := s[..|s| - 1];
    assert forall k :: 0 <= k < |init| ==> init[k] == s[k];
    if EntriesOf(init).Fail? {
      EntriesFirstError(init);
      var k :| 0 <= k < |init| && EntryOf(init[k]) == Fail(EntriesOf(init).error) &&
               (forall j :: 0 <= j < k ==> EntryOf(init[j]).Ok?);
      assert EntryOf(s[k]) == Fail(EntriesOf(s).error);
    } else {
      EntriesAllOrNothing(init);
      assert EntryOf(s[|s| - 1]) == Fail(EntriesOf(s).error);
    }
  }

  /** One more element: the list so far grows by its entry, or fails with its error. */
  lemma EntriesStep(s: seq<Element>, i: nat)
    requires i < |s|
    ensures EntriesOf(s[..i + 1]) ==
      match EntriesOf(s[..i])
      case Fail(e) => Fail(e)
      case Ok(es) => (match EntryOf(s[i]) case Fail(e) => Fail(e) case Ok(f) => Ok(es + [f]))
  {
    assert s[..i + 1][..i] == s[..i];
  }

  /** Once a prefix of the list fails, the whole list fails the same way. */
  lemma {:induction false} EntriesPrefixFails(s: seq<Element>, i: nat)
    requires i <= |s| && EntriesOf(s[..i]).Fail?
    ensures EntriesOf(s) == EntriesOf(s[..i])
    decreases |s| - i
  {
    if i < |s| {
      assert s[..i + 1][..i] == s[..i];
      assert EntriesOf(s[..i + 1]) == EntriesOf(s[..i]);
      EntriesPrefixFails(s, i + 1);
    } else {
      assert s[..i] == s;
    }
  }

  /** Every entry of an accepted list is well formed. */
  lemma EntriesWellFormed(s: seq<Element>)
    requires EntriesOf(s).Ok?
    ensures forall f :: f in EntriesOf(s).value ==> WellFormedEntry(f)
  {
    EntriesInOrder(s);
    forall f | f in EntriesOf(s).value
      ensures WellFormedEntry(f)
    {
      var k :| 0 <= k < |s| && EntriesOf(s).value[k] == f;
      assert EntryOf(s[k]) == Ok(f);
    }
  }
}
