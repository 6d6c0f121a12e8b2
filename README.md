# rpki-client manifest parser, modelled in Dafny

This project models the manifest handling of rpki-client (`usr.sbin/rpki-client/mft.c`).
An RPKI manifest (RFC 6486) is a signed list of the files a certification
authority publishes, each with its SHA-256 digest. The model covers:

- the validity-window check, `check_validity`. It classifies a manifest as
  not usable, stale or current. Times are compared field by field on
  broken-down UTC times (module `Times`).
- the decoding of one `FileAndHash` and of the whole `fileList`.
  `FileHash` holds the functions that state what is accepted. The in-place
  methods `ManifestParser.Mft.ParseFileHash` and `ManifestParser.Mft.ParseFileList`
  fill the `files` array one slot at a time.
- the walk over the five or six elements of the eContent (`EContent.EContentOf`
  and `ManifestParser.Mft.ParseEContent`). It stores `manifestNumber`, checks the
  window and, for a current manifest, checks the hash algorithm and the file list.
- `mft_parse`, as `ManifestParser.Parse` with the specification function `ParseOf`:
  - a missing AIA, AKI or SKI extension is a failure;
  - a stale manifest keeps its identity but loses every file;
  - every failure after the CMS check frees the result and clears the caller's
    certificate; a refused CMS leaves the certificate alone.
- `mft_check`, as `ManifestParser.Mft.Check`. It hashes every entry at
  `<directory of the manifest>/<entry name>`, does not stop at a mismatch,
  and reports exactly the bad entries.
- the byte stream between processes, in module `Codec`. `Buffer` (`mft_buffer`)
  appends to an `Ibuf`, and `Read` (`mft_read`) consumes a `Reader`. The
  functions `Encode` and `Decode` specify them. The lemmas prove that decoding
  an encoding gives the manifest back, that later bytes are left untouched, and
  that every truncated stream is rejected.

The DER decoder is not modelled. Its output, a list of typed elements (`Asn1.Element`),
is the model's input.

## Model

| member | source | states |
|---|---|---|
| Base.UntilNul | usr.sbin/rpki-client/mft.c:159-160 | strndup keeps a NUL-free prefix of the IA5String. The prefix stops at the first NUL, and a string without NUL is kept whole. |
| Base.LastIndexOf | usr.sbin/rpki-client/mft.c:495-496 | strrchr answers an index holding '/', and no later index holds one. |
| Times.BeforeIsStrictTotalOrder | usr.sbin/rpki-client/mft.c:105-119 | The order ASN1_time_tm_cmp decides is irreflexive, transitive and total. |
| Times.Compare | usr.sbin/rpki-client/mft.c:106-116 | ASN1_time_tm_cmp answers -1, 0 or 1 exactly when the first time is earlier than, equal to or later than the second. |
| Times.Validity.Code | usr.sbin/rpki-client/mft.c:82-121 | -1 means invalid, 0 means stale, 1 means current, each in both directions. |
| Times.CheckValidity | usr.sbin/rpki-client/mft.c:84-122 | Current iff all three times are known and from <= now <= until. Stale iff from <= until, from <= now and until < now. until < from is invalid whatever now is, and so is now < from. |
| Times.CheckWindow | usr.sbin/rpki-client/mft.c:105-121 | Reference definition: the three comparisons in source order. until before from is a bad interval, from after now is not yet valid, until before now is stale, and anything else is current. |
| Times.WindowEndsAreCurrent | usr.sbin/rpki-client/mft.c:110-121 | Both ends of the window are inclusive: now == thisUpdate or now == nextUpdate is current. |
| Times.AfterWindowIsStale | usr.sbin/rpki-client/mft.c:105-119 | Every time after nextUpdate, in a window with thisUpdate <= nextUpdate, is stale. |
| Times.OneSecondLateIsStale | usr.sbin/rpki-client/mft.c:115-119 | With the seconds field one past nextUpdate and all else equal, the manifest is stale. |
| Asn1.NumBytes | usr.sbin/rpki-client/mft.c:323 | BN_num_bytes answers the least k with n < 256^k. |
| Asn1.NumBytesAtMost | usr.sbin/rpki-client/mft.c:323 | At most c octets iff n < 256^c. |
| FileHash.FileHashOf | usr.sbin/rpki-client/mft.c:128-210 | Every FileAndHash it accepts has a NUL-free name with no '/', more than four octets and a 32-octet digest. |
| FileHash.FileHashAccepted | usr.sbin/rpki-client/mft.c:139-196 | An entry is accepted iff it is a two-element sequence of an IA5String and a 32-octet BIT STRING whose name, cut at its first NUL, has no '/' and more than four octets. The entry then holds that name and digest. |
| FileHash.ShortNameRejected | usr.sbin/rpki-client/mft.c:175-179 | Every name of four octets or fewer, cut at its first NUL and free of '/', fails with the length error, whatever the hash element is. |
| FileHash.SlashRejected | usr.sbin/rpki-client/mft.c:171-174 | A NUL-free name holding '/' is rejected, whatever element follows it. |
| FileHash.FourOctetNameRejected | usr.sbin/rpki-client/mft.c:175-179 | A four-octet name fails with the length error, even with a good digest. |
| FileHash.FiveOctetNameAccepted | usr.sbin/rpki-client/mft.c:175-205 | A five-octet name with a 32-octet digest is accepted. |
| FileHash.EntryOf | usr.sbin/rpki-client/mft.c:236-243 | Reference definition: a fileList element must be a SEQUENCE whose payload FileHashOf judges; any other element fails with EntryNotSequence. |
| FileHash.EntriesOf | usr.sbin/rpki-client/mft.c:235-246 | Reference definition of the loop: the elements in order, each extending the list, the first bad one failing it. |
| FileHash.FileListOf | usr.sbin/rpki-client/mft.c:216-250 | Reference definition: a fileList payload that is not a SEQUENCE is rejected, and otherwise the loop decides. |
| FileHash.EntriesAllOrNothing | usr.sbin/rpki-client/mft.c:235-246 | The list is accepted iff every element is. |
| FileHash.EntriesInOrder | usr.sbin/rpki-client/mft.c:235-246 | An accepted list has one entry per element, at the same index. |
| FileHash.EntriesFirstError | usr.sbin/rpki-client/mft.c:235-244 | A rejected list carries the error of its first bad element, and every element before it is good. |
| FileHash.EntriesStep | usr.sbin/rpki-client/mft.c:235-244 | One loop iteration either extends the list by the next entry or fails with that entry's error. |
| FileHash.EntriesPrefixFails | usr.sbin/rpki-client/mft.c:237-243 | Once a prefix fails, the whole list fails with the same error. |
| FileHash.EntriesWellFormed | usr.sbin/rpki-client/mft.c:235-246 | Every entry of an accepted list is well formed. |
| EContent.Outcome.Rc | usr.sbin/rpki-client/mft.c:252-255 | Below zero means rejected, zero means stale, above zero means current, each in both directions. |
| EContent.NumberLimitIsPow | usr.sbin/rpki-client/mft.c:323 | 256^20 is the bound 2^160 on manifestNumber. |
| EContent.WellFormedPrefix | usr.sbin/rpki-client/mft.c:273-361 | Reference definition: five elements, an INTEGER manifestNumber in 0 .. 2^160-1, and two GeneralizedTimes. |
| EContent.PrefixNumberFits | usr.sbin/rpki-client/mft.c:317-327 | A manifestNumber below 2^160 passes the 20-octet rule. |
| EContent.EContentOf | usr.sbin/rpki-client/mft.c:256-402 | A non-SEQUENCE is rejected. A count other than 5 or 6 is rejected with that count. Six elements (an explicit version) are always rejected. A result that is not rejected has five elements, an INTEGER of at most 20 octets as its number, and two times whose window is stale or current as the result says. A current result also has the SHA-256 object and a fileList whose decoding is its file list. In the other direction, well-formed first elements with a stale window always give the stale answer with that number. A current window with the SHA-256 object and a good fileList always gives the current answer with that number and list. |
| EContent.ManifestNumberRule | usr.sbin/rpki-client/mft.c:303-327 | A non-INTEGER, a negative integer and an integer >= 2^160 each fail with their own error. A number in 0 .. 2^160-1 is never the reason for a rejection. |
| EContent.StaleStopsBeforeFileList | usr.sbin/rpki-client/mft.c:363-365 | A stale answer does not depend on fileHashAlg or fileList: changing them changes nothing. |
| EContent.HashAlgMustBeSha256 | usr.sbin/rpki-client/mft.c:372-384 | With a current window, any fileHashAlg other than the SHA-256 object is rejected. A non-object and a different OID get different errors. |
| EContent.CurrentFilesMatchList | usr.sbin/rpki-client/mft.c:388-397 | A current eContent has one well-formed file per fileList element, in encoding order. |
| ManifestParser.Mft.constructor | usr.sbin/rpki-client/mft.c:434-437 | The new object holds only the file name; it has no files and is not stale. |
| ManifestParser.Mft.ParseFileHash | usr.sbin/rpki-client/mft.c:128-210 | The answer is true iff FileHashOf accepts. On success the entry is written at index filesz and the count grows by one; otherwise the written entries stay as they were. |
| ManifestParser.Mft.ParseFileList | usr.sbin/rpki-client/mft.c:216-250 | The answer is true iff FileListOf accepts, and then the written entries are exactly that list. A decoded list gets a fresh array of one slot per element; an undecodable one gets no array. |
| ManifestParser.Mft.ParseEContent | usr.sbin/rpki-client/mft.c:256-402 | rc is EContentOf's -1/0/1. When it is not negative, seqnum holds manifestNumber. A stale answer has allocated no file array. A current answer has written exactly the decoded file list. |
| ManifestParser.Mft.Check | usr.sbin/rpki-client/mft.c:487-512 | The answer is true iff every entry matches at its path. The reported names are empty iff it is true, and they are exactly Mismatches. |
| ManifestParser.EntryPath | usr.sbin/rpki-client/mft.c:501-502 | Reference definition of the path asprintf builds: the manifest's path up to its last '/', then '/', then the entry name. |
| ManifestParser.EntryPathStaysInDirectory | usr.sbin/rpki-client/mft.c:495-502 | For a name without '/', the path's last '/' is the manifest's own. The path keeps the manifest's directory and ends in exactly the name. |
| ManifestParser.Mismatches | usr.sbin/rpki-client/mft.c:499-511 | Reference definition: the names of the entries that fail valid_filehash, in entry order. |
| ManifestParser.NoMismatch | usr.sbin/rpki-client/mft.c:499-511 | When every entry matches, nothing is reported. |
| ManifestParser.OneMismatch | usr.sbin/rpki-client/mft.c:499-511 | When exactly one entry fails valid_filehash, the report is exactly that entry's name. |
| ManifestParser.MismatchesExact | usr.sbin/rpki-client/mft.c:499-511 | Every entry that fails valid_filehash is reported, only failing entries are reported, and there are no more reports than entries. |
| ManifestParser.ParseOf | usr.sbin/rpki-client/mft.c:411-481 | A manifest is produced iff AIA, AKI and SKI are all present and the eContent is not rejected. It keeps the path, the three extensions and the number. It is stale iff the eContent is stale; a stale one has no files, and a current one has the eContent's files. |
| ManifestParser.Parse | usr.sbin/rpki-client/mft.c:411-481 | A refused CMS gives NULL and leaves *x509 alone. Otherwise the result is NULL iff ParseOf fails, and a failure clears *x509. A result holds ParseOf's manifest. A stale result has no file array and a count of zero. |
| ManifestParser.StaleKeepsIdentityOnly | usr.sbin/rpki-client/mft.c:453-467 | A well-formed eContent whose window has closed gives a stale manifest with its identity and number but no files, whatever its fileList holds. |
| ManifestParser.CurrentAccepted | usr.sbin/rpki-client/mft.c:372-397 | A well-formed eContent with a current window, the SHA-256 object and a good fileList is accepted as current. mft_parse then gives a manifest that is not stale and holds that list, with one entry per fileList element. |
| ManifestParser.TooEarlyYieldsNothing | usr.sbin/rpki-client/mft.c:110-114 | A thisUpdate later than now gives no manifest at all. |
| ManifestParser.ParsedManifestWellFormed | usr.sbin/rpki-client/mft.c:453-471 | Every manifest mft_parse hands out has well-formed entries, none when stale, and a number of at most 20 octets. |
| Codec.SizeBytes | usr.sbin/rpki-client/mft.c:550 | A size_t is written as exactly 8 octets. |
| Codec.SizeBytesRoundTrip | usr.sbin/rpki-client/mft.c:550 | Reading the 8 octets back gives the size. |
| Codec.FlagBytes | usr.sbin/rpki-client/mft.c:548 | The stale flag is the int 1 or 0 in 4 little-endian octets. |
| Codec.FlagRoundTrip | usr.sbin/rpki-client/mft.c:575 | The flag that is read is nonzero iff the manifest was stale. |
| Codec.LeRoundTrip | usr.sbin/rpki-client/mft.c:548-550 | Decoding a fixed-width little-endian integer gives the integer back. |
| Codec.Take | usr.sbin/rpki-client/mft.c:575 | A fixed-size read succeeds iff enough octets remain, and it splits the stream there. |
| Codec.Str | usr.sbin/rpki-client/mft.c:549 | Reference definition of io_str_buffer's layout: the length as a size_t, then the octets. |
| Codec.EntryBytes | usr.sbin/rpki-client/mft.c:553-554 | Reference definition of one entry on the wire: the name as a string, then the 32 digest octets. |
| Codec.EntriesBytes | usr.sbin/rpki-client/mft.c:552-555 | Reference definition: the entries one after the other, in order. |
| Codec.Encode | usr.sbin/rpki-client/mft.c:543-560 | Reference definition of mft_buffer's output: stale flag, file, entry count, entries, aia, aki, ski. |
| Codec.SizeAt | usr.sbin/rpki-client/mft.c:578 | Reference definition: reading a size_t takes 8 octets and fails on fewer. |
| Codec.StrAt | usr.sbin/rpki-client/mft.c:576 | Reference definition of io_str_read: a size, then that many octets; it fails when either runs past the end. |
| Codec.EntryAt | usr.sbin/rpki-client/mft.c:584-585 | Reference definition: a name string, then 32 digest octets. |
| Codec.EntriesAt | usr.sbin/rpki-client/mft.c:583-586 | Reference definition: n entries read one after the other; the first one that fails fails the whole read. |
| Codec.TrailerAt | usr.sbin/rpki-client/mft.c:588-590 | Reference definition: the strings aia, aki and ski, in that order. |
| Codec.Decode | usr.sbin/rpki-client/mft.c:566-594 | Reference definition of mft_read: every field in mft_buffer's order, a nonzero flag read as stale, manifestNumber absent, and failure when any read runs out. |
| Codec.StrRoundTrip | usr.sbin/rpki-client/mft.c:549 | A string read back is the string written, and the rest of the stream is untouched. |
| Codec.SizeRoundTrip | usr.sbin/rpki-client/mft.c:578 | A size read back is the size written, and the rest of the stream is untouched. |
| Codec.EntryRoundTrip | usr.sbin/rpki-client/mft.c:584-585 | One entry read back is the entry written. |
| Codec.EntriesRoundTrip | usr.sbin/rpki-client/mft.c:552-555 | filesz entries read back are the entries written, in order. |
| Codec.TrailerRoundTrip | usr.sbin/rpki-client/mft.c:557-559 | aia, aki and ski read back are the strings written. |
| Codec.RoundTrip | usr.sbin/rpki-client/mft.c:543-594 | mft_read of what mft_buffer wrote gives the manifest back with every field except the untransferred manifestNumber, and leaves any later bytes unread. |
| Codec.ParsedRoundTrip | usr.sbin/rpki-client/mft.c:411-481 | A manifest mft_parse hands out, with strings and entry count that fit a size_t, can be encoded, and mft_read of mft_buffer's output gives it back, less manifestNumber. |
| Codec.TakeExtends | usr.sbin/rpki-client/mft.c:575 | Appending bytes does not change what a fixed-size read takes. |
| Codec.StrExtends | usr.sbin/rpki-client/mft.c:576 | Appending bytes does not change what a string read takes. |
| Codec.EntryExtends | usr.sbin/rpki-client/mft.c:584-585 | Appending bytes does not change what an entry read takes. |
| Codec.EntriesExtend | usr.sbin/rpki-client/mft.c:583-586 | Appending bytes does not change what the entry loop takes. |
| Codec.TrailerExtends | usr.sbin/rpki-client/mft.c:588-590 | Appending bytes does not change what the three trailing string reads take. |
| Codec.DecodeExtends | usr.sbin/rpki-client/mft.c:566-594 | mft_read consumes a prefix: bytes appended to a readable stream stay unread. |
| Codec.TruncatedRejected | usr.sbin/rpki-client/mft.c:566-594 | Every proper prefix of an encoded manifest fails to decode. |
| Codec.NothingAfterEnd | usr.sbin/rpki-client/mft.c:566-594 | If a stream decodes with nothing left over, no proper prefix of it decodes. |
| Codec.Ibuf.AppendSimple | usr.sbin/rpki-client/mft.c:548 | io_simple_buffer appends the octets. |
| Codec.Ibuf.AppendStr | usr.sbin/rpki-client/mft.c:549 | io_str_buffer appends the length-prefixed string. |
| Codec.Buffer | usr.sbin/rpki-client/mft.c:543-560 | mft_buffer appends exactly Encode of the manifest the object holds. |
| Codec.AppendEntries | usr.sbin/rpki-client/mft.c:552-555 | The loop appends each entry's name and digest, in order. |
| Codec.EntriesBytesSnoc | usr.sbin/rpki-client/mft.c:552-555 | One more loop iteration appends exactly one entry's bytes. |
| Codec.EncodeAppended | usr.sbin/rpki-client/mft.c:548-559 | The seven appends, in order, form Encode. |
| Codec.Reader.ReadSimple | usr.sbin/rpki-client/mft.c:575 | io_simple_read fails iff too few octets remain, and otherwise takes exactly n. |
| Codec.Reader.ReadSize | usr.sbin/rpki-client/mft.c:578 | Reads a size_t as SizeAt does. |
| Codec.Reader.ReadString | usr.sbin/rpki-client/mft.c:576 | io_str_read reads a length-prefixed string as StrAt does. |
| Codec.Read | usr.sbin/rpki-client/mft.c:566-594 | The result is NULL iff Decode rejects the stream. Otherwise it is a fresh, consistent object holding Decode's manifest, and the reader stands where Decode stops. |
| Codec.Assemble | usr.sbin/rpki-client/mft.c:572-591 | The fields read are gathered into a fresh struct mft that holds exactly them. |
| Codec.ReadEntries | usr.sbin/rpki-client/mft.c:580-586 | calloc and the entry loop fail iff EntriesAt does. Otherwise they give a fresh array of filesz entries, which are EntriesAt's. |
| Codec.DecodeNoFlag | usr.sbin/rpki-client/mft.c:575 | A stream too short for the flag is rejected. |
| Codec.DecodeNoFile | usr.sbin/rpki-client/mft.c:576 | A stream whose file name cannot be read is rejected. |
| Codec.DecodeNoCount | usr.sbin/rpki-client/mft.c:578 | A stream whose entry count cannot be read is rejected. |
| Codec.DecodeNoEntries | usr.sbin/rpki-client/mft.c:583-586 | A stream that ends inside its entries is rejected. |
| Codec.DecodeNoTrailer | usr.sbin/rpki-client/mft.c:588-590 | A stream that ends inside aia, aki or ski is rejected. |
| Codec.DecodeAll | usr.sbin/rpki-client/mft.c:575-593 | Once every read succeeds, Decode answers the manifest of those fields. |
| Codec.EntriesSnoc | usr.sbin/rpki-client/mft.c:583-586 | One successful loop iteration extends EntriesAt by one entry. |
| Codec.EntriesStop | usr.sbin/rpki-client/mft.c:583-586 | If reading entry i fails, reading all n entries fails. |

## Left out

- DER decoding (d2i_ASN1_SEQUENCE_ANY, ASN1_INTEGER_to_BN, OBJ_obj2nid) is not modelled: its output, a list of typed `Asn1.Element`s, is an input. A SEQUENCE payload that does not decode is `None`.
- CMS signature validation (cms_parse_validate) and the X.509 accessors x509_get_aia, x509_get_aki and x509_get_ski are collaborators: their answers are inputs of `Parse`.
- The clock: time(NULL) and gmtime_r are replaced by the parameter `now`, which is `None` where gmtime_r fails. generalizedtime_to_tm is replaced by `GeneralizedTime(None)` where the time does not parse.
- Warnings (warnx, cryptowarnx, gentime2str) have no effect on results and are left out. The model records why a result was rejected through error values instead.
- BN_bn2hex is left out: manifestNumber is kept as a natural number, not rendered as hexadecimal text. A BN_bn2hex or ASN1_INTEGER_to_BN allocation failure is not modelled.
- cms_econtent_version is not modelled. Every version it can decode is rejected by the source, so the model rejects six elements outright, whatever cms_econtent_version answers.
- EContent.EContentOf: mft.c:283-285 reads element 0 of a six-element eContent as a string without checking its type. For a NULL, BOOLEAN or OBJECT the source reads the wrong union member, and the model does not capture what follows. It answers VersionRejected there as well.
- valid_filehash, which opens and hashes a file, is a function parameter of `Check`.
- asprintf in mft_check is modelled by `EntryPath`, the directory part followed by '/' and the name. Its allocation failure (err) is not modelled.
- Allocation failures that end the program (err(1, NULL) after calloc, strdup or strndup) are not modelled, and neither are memory release (free, mft_free, sk_ASN1_TYPE_pop_free, BN_free, X509_free as such) or the one-time OBJ_txt2obj of the manifest OID.
- The io_* transport functions are not part of this model beyond the layout they produce. Integers are taken as little-endian, sizeof(int) as 4 and sizeof(size_t) as 8.
- Codec.Read: where the source's reads fail with a fatal error or wait for more bytes, the model returns NULL.
- Codec.Read: the assertions that the strings were present (`assert(p->file)`, `assert(p->aia && p->aki && p->ski)`) are not modelled, because io_str_read is not part of this model.
- Codec.Decode: a string in the stream may hold any octets; the C side later reads it only up to its first NUL. The round trip is stated for NUL-free strings only (`Encodable`).
- Codec.RoundTrip: manifestNumber is not part of the stream, so a decoded manifest has `seqnum == None`.
- ManifestParser.Manifest: `stale` is a bool. The source stores an int, and any nonzero value read back counts as stale.
- ManifestParser.Parse: the source stores aia, aki and ski before checking that all three exist. The model stores them only once all three do. A failure frees the object, so nothing observable differs.
- The regress programs (test-cert.c, test-roa.c) are drivers for other object types and are not part of this model.
