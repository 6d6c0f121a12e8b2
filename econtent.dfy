/**
 * The eContent of a manifest, RFC 6486 section 4.2:
 *
 *   Manifest ::= SEQUENCE {
 *     version        [0] INTEGER DEFAULT 0,
 *     manifestNumber INTEGER (0..MAX),
 *     thisUpdate     GeneralizedTime,
 *     nextUpdate     GeneralizedTime,
 *     fileHashAlg    OBJECT IDENTIFIER,
 *     fileList       SEQUENCE SIZE (0..MAX) OF FileAndHash }
 *
 * EContentOf states what mft_parse_econtent answers for a decoded element list;
 * the method that fills the result object in place is ManifestParser.Mft.ParseEContent.
 */
module EContent {
  import opened Base
  import opened Times
  import opened Asn1
  import opened FileHash

  /** Why the eContent is rejected. */
  datatype Error =
    | BadManifestSequence          // the eContent is not a DER SEQUENCE
    | WrongElementCount(n: nat)    // neither 5 nor 6 elements
    | VersionRejected              // an explicit version is present: no version is accepted
    | NumberNotInteger             // manifestNumber is not an INTEGER
    | NegativeNumber               // manifestNumber < 0
    | NumberTooLarge               // manifestNumber needs more than 20 octets
    | ThisUpdateNotTime            // thisUpdate is not a GeneralizedTime
    | NextUpdateNotTime            // nextUpdate is not a GeneralizedTime
    | BadWindow(why: TimeError)    // check_validity answered -1
    | HashAlgNotObject             // fileHashAlg is not an OBJECT IDENTIFIER
    | HashAlgNotSha256(nid: int)   // fileHashAlg names another algorithm
    | FileListNotSequence          // fileList is not a SEQUENCE
    | BadFileList(cause: EntryError) // mft_parse_flist failed

  /** The three-way answer of mft_parse_econtent. */
  datatype Outcome =
    | Rejected(error: Error)
    | StaleContent(seqnum: nat)
    | CurrentContent(seqnum: nat, files: seq<FileEntry>)
  {
    /** The integer the source returns: below zero on failure, zero when stale, above zero when current. */
    function Rc(): (c: int)
      ensures c < 0 <==> Rejected?
      ensures c == 0 <==> StaleContent?
      ensures c > 0 <==> CurrentContent?
    {
      match this
      case Rejected(_) => -1
      case StaleContent(_) => 0
      case CurrentContent(_, _) => 1
    }
  }

  /** The most octets a manifestNumber may take. */
  const MaxNumberOctets: nat := 20

  /** 2^160: the first number that needs more than 20 octets. */
  const NumberLimit: nat := 0x10000000000000000000000000000000000000000

  lemma NumberLimitIsPow()
    ensures Pow256(MaxNumberOctets) == NumberLimit
  {
    assert Pow256(5) == 0x100_0000_0000;
    Pow256Add(5, 5);
    Pow256Add(10, 10);
  }

  /**
   * The first three elements pass their checks: five elements, a manifestNumber
   * in 0 .. 2^160 - 1, and two GeneralizedTimes.
   */
  predicate WellFormedPrefix(content: Decoded) {
    content.Some? && |content.value| == 5 &&
    content.value[0].Integer? && 0 <= content.value[0].value < NumberLimit &&
    content.value[1].GeneralizedTime? && content.value[2].GeneralizedTime?
  }

  /** A manifestNumber below 2^160 passes the 20-octet rule. */
  lemma PrefixNumberFits(content: Decoded)
    ensures WellFormedPrefix(content) ==> NumBytes(content.value[0].value) <= MaxNumberOctets
  {
    if WellFormedPrefix(content) {
      NumBytesAtMost(content.value[0].value, MaxNumberOctets);
      NumberLimitIsPow();
    }
  }

  /** mft_parse_econtent on the decoded eContent, at time now. */
  function EContentOf(content: Decoded, now: Option<Tm>): (r: Outcome)
    ensures content.None? ==> r == Rejected(BadManifestSequence)
    ensures content.Some? && |content.value| != 5 && |content.value| != 6 ==>
      r == Rejected(WrongElementCount(|content.value|))
    ensures content.Some? && |content.value| == 6 ==> r == Rejected(VersionRejected)
    ensures !r.Rejected? ==>
      content.Some? && |content.value| == 5 &&
      content.value[0] == Integer(r.seqnum) && NumBytes(r.seqnum) <= MaxNumberOctets &&
      content.value[1].GeneralizedTime? && content.value[2].GeneralizedTime? &&
      CheckValidity(content.value[1].time, content.value[2].time, now) == (if r.StaleContent? then Stale else Current)
    ensures r.CurrentContent? ==>
      content.value[3] == Object(NidSha256) &&
      content.value[4].Sequence? && FileListOf(content.value[4].body) == Ok(r.files)
    ensures WellFormedPrefix(content) && CheckValidity(content.value[1].time, content.value[2].time, now) == Stale ==>
      r == StaleContent(content.value[0].value)
    ensures (WellFormedPrefix(content) && CheckValidity(content.value[1].time, content.value[2].time, now) == Current &&
             content.value[3] == Object(NidSha256) && content.value[4].Sequence? && FileListOf(content.value[4].body).Ok?) ==>
      r == CurrentContent(content.value[0].value, FileListOf(content.value[4].body).value)
  {
    PrefixNumberFits(content);
    if content.None? then Rejected(BadManifestSequence)
    else
      var s := content.value;
      if |s| != 5 && |s| != 6 then Rejected(WrongElementCount(|s|))
      else if |s| == 6 then Rejected(VersionRejected)
      else if !s[0].Integer? then Rejected(NumberNotInteger)
      else if s[0].value < 0 then Rejected(NegativeNumber)
      else if NumBytes(s[0].value) > MaxNumberOctets then Rejected(NumberTooLarge)
      else if !s[1].GeneralizedTime? then Rejected(ThisUpdateNotTime)
      else if !s[2].GeneralizedTime? then Rejected(NextUpdateNotTime)
      else
        var seqnum: nat := s[0].value;
        match CheckValidity(s[1].time, s[2].time, now)
        case Invalid(why) => Rejected(BadWindow(why))
        case Stale => StaleContent(seqnum)
        case Current =>
          if !s[3].Object? then Rejected(HashAlgNotObject)
          else if s[3].nid != NidSha256 then Rejected(HashAlgNotSha256(s[3].nid))
          else if !s[4].Sequence? then Rejected(FileListNotSequence)
          else
            match FileListOf(s[4].body)
            case Fail(e) => Rejected(BadFileList(e))
            case Ok(files) => CurrentContent(seqnum, files)
  }

  /**
   * manifestNumber must be an INTEGER in 0 .. 2^160 - 1 (at most 20 octets):
   * each other value fails with its own error, and an in-range value is never
   * the reason for a rejection.
   */
  lemma ManifestNumberRule(s: seq<Element>, now: Option<Tm>)
    requires |s| == 5
    ensures !s[0].Integer? ==> EContentOf(Some(s), now) == Rejected(NumberNotInteger)
    ensures s[0].Integer? && s[0].value < 0 ==> EContentOf(Some(s), now) == Rejected(NegativeNumber)
    ensures s[0].Integer? && s[0].value >= NumberLimit ==> EContentOf(Some(s), now) == Rejected(NumberTooLarge)
    ensures s[0].Integer? && 0 <= s[0].value < NumberLimit ==>
      var r := EContentOf(Some(s), now);
      r != Rejected(NumberNotInteger) && r != Rejected(NegativeNumber) && r != Rejected(NumberTooLarge)
  {
    if s[0].Integer? && s[0].value >= 0 {
      NumBytesAtMost(s[0].value, MaxNumberOctets);
      NumberLimitIsPow();
      if s[0].value < NumberLimit {
        var r := EContentOf(Some(s), now);
        assert r.Rejected? ==> r.error !in {NumberNotInteger, NegativeNumber, NumberTooLarge};
      }
    }
  }

  /**
   * A stale window ends the walk: thisUpdate and nextUpdate decide it, and
   * fileHashAlg and fileList are never inspected, so replacing them changes nothing.
   */
  lemma StaleStopsBeforeFileList(s: seq<Element>, now: Option<Tm>, alg: Element, list: Element)
    requires EContentOf(Some(s), now).StaleContent?
    ensures EContentOf(Some(s[..3] + [alg, list]), now) == EContentOf(Some(s), now)
  {
    var t := s[..3] + [alg, list];
    assert t[0] == s[0] && t[1] == s[1] && t[2] == s[2] && |t| == 5;
  }

  /** With a current window, any fileHashAlg other than the SHA-256 object is rejected. */
  lemma HashAlgMustBeSha256(s: seq<Element>, now: Option<Tm>)
    requires |s| == 5 && s[0].Integer? && 0 <= s[0].value < NumberLimit
    requires s[1].GeneralizedTime? && s[2].GeneralizedTime?
    requires CheckValidity(s[1].time, s[2].time, now) == Current
    requires s[3] != Object(NidSha256)
    ensures EContentOf(Some(s), now) == Rejected(if s[3].Object? then HashAlgNotSha256(s[3].nid) else HashAlgNotObject)
  {
    NumBytesAtMost(s[0].value, MaxNumberOctets);
    NumberLimitIsPow();
  }

  /**
   * A current eContent carries exactly one file entry per fileList element, in
   * the order of the encoding, and each of them is well formed.
   */
  lemma CurrentFilesMatchList(s: seq<Element>, now: Option<Tm>)
    requires EContentOf(Some(s), now).CurrentContent?
    ensures s[4].Sequence? && s[4].body.Some?
    ensures var files := EContentOf(Some(s), now).files;
      |files| == |s[4].body.value| &&
      (forall k :: 0 <= k < |files| ==> EntryOf(s[4].body.value[k]) == Ok(files[k])) &&
      (forall f :: f in files ==> WellFormedEntry(f))
  {
    EntriesInOrder(s[4].body.value);
    EntriesWellFormed(s[4].body.value);
  }
}
