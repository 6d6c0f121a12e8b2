/**
 * The byte layout a manifest travels in between rpki-client's processes
 * (mft_buffer on one side, mft_read on the other):
 *
 *   stale    int, 4 octets
 *   file     string
 *   filesz   size_t, 8 octets
 *   filesz times: name (string), hash (32 raw octets)
 *   aia, aki, ski   strings
 *
 * where a string is its length as a size_t followed by its octets. Integers are
 * in the host's byte order, taken here as little-endian; io_simple_buffer,
 * io_str_buffer and their readers are not part of this model beyond this layout.
 * manifestNumber is not part of the layout.
 */
module Codec {
  import opened Base
  import opened Times
  import opened Asn1
  import opened FileHash
  import opened ManifestParser

  /** sizeof(int) and sizeof(size_t). */
  const IntWidth: nat := 4
  const SizeWidth: nat := 8

  /** One more than the largest size_t. */
  const SizeLimit: nat := 0x1_0000_0000_0000_0000

  lemma SizeLimitIsPow()
    ensures Pow256(SizeWidth) == SizeLimit
  {
  }

  /** n as w little-endian octets. */
  function Le(n: nat, w: nat): (b: seq<byte>)
    requires n < Pow256(w)
    ensures |b| == w
  {
    if w == 0 then []
    else
      assert n / 256 < Pow256(w - 1);
      [(n % 256) as byte] + Le(n / 256, w - 1)
  }

  /** The number whose little-endian octets these are. */
  function FromLe(b: seq<byte>): (n: nat)
    ensures n < Pow256(|b|)
  {
    if b == [] then 0
    else
      var rest := FromLe(b[1..]);
      assert rest <= Pow256(|b| - 1) - 1;
      assert 256 * rest <= 256 * Pow256(|b| - 1) - 256;
      b[0] as nat + 256 * rest
  }

  /** A size_t as it is written. */
  function SizeBytes(n: nat): (b: seq<byte>)
    requires n < SizeLimit
    ensures |b| == SizeWidth
  {
    SizeLimitIsPow();
    Le(n, SizeWidth)
  }

  lemma SizeBytesRoundTrip(n: nat)
    requires n < SizeLimit
    ensures FromLe(SizeBytes(n)) == n
  {
    SizeLimitIsPow();
    LeRoundTrip(n, SizeWidth);
  }

  /** The int mft_buffer writes for the stale flag: 1 or 0. */
  function FlagBytes(f: bool): (b: seq<byte>)
    ensures b == Le(if f then 1 else 0, IntWidth)
  {
    if f then [1, 0, 0, 0] else [0, 0, 0, 0]
  }

  /** mft_read takes any nonzero int for true. */
  lemma FlagRoundTrip(f: bool)
    ensures FromLe(FlagBytes(f)) != 0 <==> f
  {
    LeRoundTrip(if f then 1 else 0, IntWidth);
  }

  lemma {:induction false} LeRoundTrip(n: nat, w: nat)
    requires n < Pow256(w)
    ensures FromLe(Le(n, w)) == n
  {
    if w > 0 {
      LeRoundTrip(n / 256, w - 1);
      assert Le(n, w)[1..] == Le(n / 256, w - 1);
    }
  }

  /**
   * What struct mft holds by construction: C strings (so that strlen is their
   * length) whose lengths, like the entry count, fit a size_t, and 32-octet digests.
   */
  predicate Encodable(m: Manifest) {
    StrEncodable(m.file) && |m.files| < SizeLimit &&
    (forall e :: e in m.files ==> EntryEncodable(e)) &&
    StrEncodable(m.aia) && StrEncodable(m.aki) && StrEncodable(m.ski)
  }

  predicate StrEncodable(s: seq<byte>) {
    IsCString(s) && |s| < SizeLimit
  }

  predicate EntryEncodable(e: FileEntry) {
    StrEncodable(e.name) && |e.hash| == Sha256DigestLength
  }

  /** io_str_buffer: a length-prefixed string. */
  function Str(s: seq<byte>): seq<byte>
    requires |s| < SizeLimit
  {
    SizeBytes(|s|) + s
  }

  function EntryBytes(e: FileEntry): seq<byte>
    requires EntryEncodable(e)
  {
    Str(e.name) + e.hash
  }

  function EntriesBytes(es: seq<FileEntry>): seq<byte>
    requires forall e :: e in es ==> EntryEncodable(e)
  {
    if es == [] then [] else EntriesBytes(es[..|es| - 1]) + EntryBytes(es[|es| - 1])
  }

  /** mft_buffer: the fields in their fixed order. */
  function Encode(m: Manifest): seq<byte>
    requires Encodable(m)
  {
    FlagBytes(m.stale) + Str(m.file) + SizeBytes(|m.files|) +
    EntriesBytes(m.files) + Str(m.aia) + Str(m.aki) + Str(m.ski)
  }

  /** io_simple_read of n octets: None when fewer remain. */
  function Take(s: seq<byte>, n: nat): (r: Option<(seq<byte>, seq<byte>)>)
    ensures r.Some? <==> n <= |s|
    ensures r.Some? ==> |r.value.0| == n && s == r.value.0 + r.value.1
  {
    if n <= |s| then Some((s[..n], s[n..])) else None
  }

  function SizeAt(s: seq<byte>): Option<(nat, seq<byte>)> {
    var b := Take(s, SizeWidth);
    if b.None? then None else Some((FromLe(b.value.0), b.value.1))
  }

  /** io_str_read. */
  function StrAt(s: seq<byte>): Option<(seq<byte>, seq<byte>)> {
    var n := SizeAt(s);
    if n.None? then None else Take(n.value.1, n.value.0)
  }

  function EntryAt(s: seq<byte>): Option<(FileEntry, seq<byte>)> {
    var name := StrAt(s);
    if name.None? then None
    else
      var hash := Take(name.value.1, Sha256DigestLength);
      if hash.None? then None else Some((FileEntry(name.value.0, hash.value.0), hash.value.1))
  }

  /** n entries one after the other. */
  function EntriesAt(s: seq<byte>, n: nat): Option<(seq<FileEntry>, seq<byte>)> {
    if n == 0 then Some(([], s))
    else
      var before := EntriesAt(s, n - 1);
      if before.None? then None
      else
        var next := EntryAt(before.value.1);
        if next.None? then None
        else Some((before.value.0 + [next.value.0], next.value.1))
  }

  /** The fields after the file list: aia, aki and ski. */
  function TrailerAt(s: seq<byte>): Option<((seq<byte>, seq<byte>, seq<byte>), seq<byte>)> {
    var aia := StrAt(s);
    if aia.None? then None
    else
      var aki := StrAt(aia.value.1);
      if aki.None? then None
      else
        var ski := StrAt(aki.value.1);
        if ski.None? then None
        else Some(((aia.value.0, aki.value.0, ski.value.0), ski.value.1))
  }

  /** mft_read: the manifest that leads s and what follows it, or None when s runs out first. */
  function Decode(s: seq<byte>): Option<(Manifest, seq<byte>)> {
    var st := Take(s, IntWidth);
    if st.None? then None
    else
      var file := StrAt(st.value.1);
      if file.None? then None
      else
        var n := SizeAt(file.value.1);
        if n.None? then None
        else
          var files := EntriesAt(n.value.1, n.value.0);
          if files.None? then None
          else
            var tr := TrailerAt(files.value.1);
            if tr.None? then None
            else
              var (aia, aki, ski) := tr.value.0;
              Some((Manifest(file.value.0, FromLe(st.value.0) != 0, None, files.value.0, aia, aki, ski), tr.value.1))
  }

  lemma Assoc(a: seq<byte>, b: seq<byte>, c: seq<byte>)
    ensures a + b + c == a + (b + c)
  {
  }

  lemma InitLast(es: seq<FileEntry>)
    requires es != []
    ensures es[..|es| - 1] + [es[|es| - 1]] == es
  {
  }

  lemma TakeConcat(a: seq<byte>, t: seq<byte>)
    ensures Take(a + t, |a|) == Some((a, t))
  {
    assert (a + t)[..|a|] == a && (a + t)[|a|..] == t;
  }

  lemma StrRoundTrip(x: seq<byte>, t: seq<byte>)
    requires |x| < SizeLimit
    ensures StrAt(Str(x) + t) == Some((x, t))
  {
    Assoc(SizeBytes(|x|), x, t);
    TakeConcat(SizeBytes(|x|), x + t);
    SizeBytesRoundTrip(|x|);
    TakeConcat(x, t);
  }

  lemma SizeRoundTrip(n: nat, t: seq<byte>)
    requires n < SizeLimit
    ensures SizeAt(SizeBytes(n) + t) == Some((n, t))
  {
    TakeConcat(SizeBytes(n), t);
    SizeBytesRoundTrip(n);
  }

  lemma EntryRoundTrip(e: FileEntry, t: seq<byte>)
    requires EntryEncodable(e)
    ensures EntryAt(EntryBytes(e) + t) == Some((e, t))
  {
    Assoc(Str(e.name), e.hash, t);
    StrRoundTrip(e.name, e.hash + t);
    TakeConcat(e.hash, t);
  }

  lemma {:induction false} EntriesRoundTrip(es: seq<FileEntry>, t: seq<byte>)
    requires forall e :: e in es ==> EntryEncodable(e)
    ensures EntriesAt(EntriesBytes(es) + t, |es|) == Some((es, t))
  {
    if es == [] {
      assert EntriesBytes(es) + t == t;
    } else {
      var init, last := es[..|es| - 1], es[|es| - 1];
      var tail := EntryBytes(last) + t;
      assert EntriesAt(EntriesBytes(es) + t, |es| - 1) == Some((init, tail)) by {
        assert forall k :: 0 <= k < |init| ==> init[k] == es[k];
        assert EntriesBytes(es) == EntriesBytes(init) + EntryBytes(last);
        Assoc(EntriesBytes(init), EntryBytes(last), t);
        EntriesRoundTrip(init, tail);
      }
      Assoc(Str(last.name), last.hash, t);
      StrRoundTrip(last.name, last.hash + t);
      TakeConcat(last.hash, t);
      EntriesSnoc(EntriesBytes(es) + t, |es| - 1, init, tail, last.name, last.hash + t, last.hash, t);
      assert FileEntry(last.name, last.hash) == last;
      InitLast(es);
    }
  }

  /**
   * mft_read reads back exactly what mft_buffer wrote: every field of the
   * manifest except manifestNumber, which is not transferred, and whatever
   * follows it in the stream is left unread.
   */
  lemma RoundTrip(m: Manifest, t: seq<byte>)
    requires Encodable(m)
    ensures Decode(Encode(m) + t) == Some((m.(seqnum := None), t))
  {
    var a := FlagBytes(m.stale);
    var b, c, d := Str(m.file), SizeBytes(|m.files|), EntriesBytes(m.files);
    var e, f, g := Str(m.aia), Str(m.aki), Str(m.ski);
    var s4 := e + f + g + t;
    var s3 := d + s4;
    var s2 := c + s3;
    var s1 := b + s2;
    assert Encode(m) == a + b + c + d + e + f + g;
    Regroup(a, b, c, d, e, f, g, t);
    TakeConcat(a, s1);
    FlagRoundTrip(m.stale);
    StrRoundTrip(m.file, s2);
    SizeRoundTrip(|m.files|, s3);
    EntriesRoundTrip(m.files, s4);
    TrailerRoundTrip(m.aia, m.aki, m.ski, t);
    DecodeAll(a + s1, a, s1, m.file, s2, |m.files|, s3, m.files, s4, (m.aia, m.aki, m.ski), t);
  }

  /**
   * What mft_parse hands out travels intact: a parsed manifest whose strings and
   * entry count fit a size_t reads back as itself, less manifestNumber.
   */
  lemma ParsedRoundTrip(fn: seq<byte>, cert: Cert, econtent: Decoded, now: Option<Tm>, t: seq<byte>)
    requires ParseOf(fn, cert, econtent, now).Some?
    requires StrEncodable(fn)
    requires StrEncodable(cert.aia.value) && StrEncodable(cert.aki.value) && StrEncodable(cert.ski.value)
    requires var m := ParseOf(fn, cert, econtent, now).value;
      |m.files| < SizeLimit && forall k :: 0 <= k < |m.files| ==> |m.files[k].name| < SizeLimit
    ensures var m := ParseOf(fn, cert, econtent, now).value;
      Encodable(m) && Decode(Encode(m) + t) == Some((m.(seqnum := None), t))
  {
    var m := ParseOf(fn, cert, econtent, now).value;
    ParsedManifestWellFormed(fn, cert, econtent, now);
    forall e | e in m.files
      ensures EntryEncodable(e)
    {
      var k :| 0 <= k < |m.files| && m.files[k] == e;
    }
    RoundTrip(m, t);
  }

  lemma TrailerRoundTrip(aia: seq<byte>, aki: seq<byte>, ski: seq<byte>, t: seq<byte>)
    requires |aia| < SizeLimit && |aki| < SizeLimit && |ski| < SizeLimit
    ensures TrailerAt(Str(aia) + Str(aki) + Str(ski) + t) == Some(((aia, aki, ski), t))
  {
    Assoc(Str(aia) + Str(aki), Str(ski), t);
    Assoc(Str(aia), Str(aki), Str(ski) + t);
    StrRoundTrip(aia, Str(aki) + (Str(ski) + t));
    StrRoundTrip(aki, Str(ski) + t);
    StrRoundTrip(ski, t);
  }

  lemma TakeExtends(s: seq<byte>, n: nat, u: seq<byte>)
    requires Take(s, n).Some?
    ensures Take(s + u, n) == Some((Take(s, n).value.0, Take(s, n).value.1 + u))
  {
    assert (s + u)[..n] == s[..n] && (s + u)[n..] == s[n..] + u;
  }

  lemma StrExtends(s: seq<byte>, u: seq<byte>)
    requires StrAt(s).Some?
    ensures StrAt(s + u) == Some((StrAt(s).value.0, StrAt(s).value.1 + u))
  {
    TakeExtends(s, SizeWidth, u);
    TakeExtends(SizeAt(s).value.1, SizeAt(s).value.0, u);
  }

  lemma EntryExtends(s: seq<byte>, u: seq<byte>)
    requires EntryAt(s).Some?
    ensures EntryAt(s + u) == Some((EntryAt(s).value.0, EntryAt(s).value.1 + u))
  {
    StrExtends(s, u);
    TakeExtends(StrAt(s).value.1, Sha256DigestLength, u);
  }

  lemma {:induction false} EntriesExtend(s: seq<byte>, n: nat, u: seq<byte>)
    requires EntriesAt(s, n).Some?
    ensures EntriesAt(s + u, n) == Some((EntriesAt(s, n).value.0, EntriesAt(s, n).value.1 + u))
  {
    if n > 0 {
      EntriesExtend(s, n - 1, u);
      EntryExtends(EntriesAt(s, n - 1).value.1, u);
    }
  }

  lemma TrailerExtends(s: seq<byte>, u: seq<byte>)
    requires TrailerAt(s).Some?
    ensures TrailerAt(s + u) == Some((TrailerAt(s).value.0, TrailerAt(s).value.1 + u))
  {
    StrExtends(s, u);
    StrExtends(StrAt(s).value.1, u);
    StrExtends(StrAt(StrAt(s).value.1).value.1, u);
  }

  /** Reading is insensitive to what follows: more input never changes what a successful read yields. */
  lemma DecodeExtends(s: seq<byte>, u: seq<byte>)
    requires Decode(s).Some?
    ensures Decode(s + u) == Some((Decode(s).value.0, Decode(s).value.1 + u))
  {
    var s1 := Take(s, IntWidth).value.1;
    TakeExtends(s, IntWidth, u);
    var s2 := StrAt(s1).value.1;
    StrExtends(s1, u);
    var (n, s3) := SizeAt(s2).value;
    TakeExtends(s2, SizeWidth, u);
    var s4 := EntriesAt(s3, n).value.1;
    EntriesExtend(s3, n, u);
    TrailerExtends(s4, u);
  }

  /** A stream cut anywhere before the end of an encoded manifest is rejected, never read short. */
  lemma TruncatedRejected(m: Manifest, k: nat)
    requires Encodable(m) && k < |Encode(m)|
    ensures Decode(Encode(m)[..k]).None?
  {
    RoundTrip(m, []);
    assert Encode(m) + [] == Encode(m);
    Split(Encode(m), k);
    NothingAfterEnd(Encode(m)[..k], Encode(m)[k..]);
  }

  lemma Split(s: seq<byte>, k: nat)
    requires k <= |s|
    ensures s[..k] + s[k..] == s
  {
  }

  /** A stream that decodes with nothing left over has no proper prefix that decodes. */
  lemma NothingAfterEnd(s: seq<byte>, u: seq<byte>)
    requires u != [] && Decode(s + u).Some? && Decode(s + u).value.1 == []
    ensures Decode(s).None?
  {
    if Decode(s).Some? {
      DecodeExtends(s, u);
      assert false;
    }
  }

  /** struct ibuf: the buffer mft_buffer appends to. */
  class Ibuf {
    var data: seq<byte>

    constructor ()
      ensures data == []
    {
      data := [];
    }

    /** io_simple_buffer. */
    method AppendSimple(b: seq<byte>)
      modifies this
      ensures data == old(data) + b
    {
      data := data + b;
    }

    /** io_str_buffer. */
    method AppendStr(s: seq<byte>)
      requires |s| < SizeLimit
      modifies this
      ensures data == old(data) + Str(s)
    {
      data := data + SizeBytes(|s|);
      data := data + s;
    }
  }

  /**
   * mft_buffer: append the manifest's fields in their fixed order.
   */
  method Buffer(b: Ibuf, p: Mft)
    requires p.Valid() && Encodable(p.Value())
    modifies b
    ensures b.data == old(b.data) + Encode(p.Value())
  {
    ghost var start := b.data;
    b.AppendSimple(FlagBytes(p.stale));
    b.AppendStr(p.file);
    b.AppendSimple(SizeBytes(p.filesz));
    AppendEntries(b, p);
    b.AppendStr(p.aia);
    b.AppendStr(p.aki);
    b.AppendStr(p.ski);
    EncodeAppended(start, p.Value());
  }

  /** The loop of mft_buffer: each entry's name, then its digest. */
  method AppendEntries(b: Ibuf, p: Mft)
    requires p.Valid() && forall e :: e in p.Files() ==> EntryEncodable(e)
    modifies b
    ensures b.data == old(b.data) + EntriesBytes(p.Files())
  {
    ghost var fs := p.Files();
    ghost var head := b.data;
    var i := 0;
    while i < p.filesz
      invariant 0 <= i <= p.filesz == |fs|
      invariant forall e :: e in fs[..i] ==> EntryEncodable(e)
      invariant b.data == head + EntriesBytes(fs[..i])
    {
      EntriesBytesSnoc(fs, i);
      assert p.files[i] == fs[i] && fs[i] in fs;
      b.AppendStr(p.files[i].name);
      b.AppendSimple(p.files[i].hash);
      Assoc(head, EntriesBytes(fs[..i]), EntryBytes(fs[i]));
      i := i + 1;
    }
    assert fs[..i] == fs;
  }

  /** Growing the encoded prefix of the file list by one entry. */
  lemma EntriesBytesSnoc(es: seq<FileEntry>, i: nat)
    requires i < |es| && forall e :: e in es ==> EntryEncodable(e)
    ensures forall e :: e in es[..i + 1] ==> EntryEncodable(e)
    ensures EntriesBytes(es[..i + 1]) == EntriesBytes(es[..i]) + EntryBytes(es[i])
  {
    assert es[..i + 1][..i] == es[..i];
  }

  /** The appends of Buffer, one after the other, add up to Encode. */
  lemma EncodeAppended(x: seq<byte>, m: Manifest)
    requires Encodable(m)
    ensures x + FlagBytes(m.stale) + Str(m.file) + SizeBytes(|m.files|) + EntriesBytes(m.files) +
            Str(m.aia) + Str(m.aki) + Str(m.ski) == x + Encode(m)
  {
    var a, b, c, d := FlagBytes(m.stale), Str(m.file), SizeBytes(|m.files|), EntriesBytes(m.files);
    var e, f, g := Str(m.aia), Str(m.aki), Str(m.ski);
    Assoc7(x, a, b, c, d, e, f, g);
  }

  /** The encoding followed by t, grouped by the order the reader takes it apart. */
  lemma Regroup(a: seq<byte>, b: seq<byte>, c: seq<byte>, d: seq<byte>,
                e: seq<byte>, f: seq<byte>, g: seq<byte>, t: seq<byte>)
    ensures a + b + c + d + e + f + g + t == a + (b + (c + (d + (e + f + g + t))))
  {
    Assoc(a + b + c + d, e + f + g, t);
    Assoc(a + b + c + d + e + f, g, t);
    Assoc(a + b + c + d + e, f, g + t);
    Assoc(a + b + c + d, e, f + (g + t));
    Assoc(e + f, g, t);
    Assoc(e, f, g + t);
    Assoc(a + b + c, d, e + f + g + t);
    Assoc(a + b, c, d + (e + f + g + t));
    Assoc(a, b, c + (d + (e + f + g + t)));
  }

  lemma Assoc7(x: seq<byte>, a: seq<byte>, b: seq<byte>, c: seq<byte>, d: seq<byte>,
               e: seq<byte>, f: seq<byte>, g: seq<byte>)
    ensures x + a + b + c + d + e + f + g == x + (a + b + c + d + e + f + g)
  {
    Assoc(x, a, b);
    Assoc(x, a + b, c);
    Assoc(x, a + b + c, d);
    Assoc(x, a + b + c + d, e);
    Assoc(x, a + b + c + d + e, f);
    Assoc(x, a + b + c + d + e + f, g);
  }

  /** The other end of the pipe: the octets not yet read. */
  class Reader {
    var rest: seq<byte>

    constructor (s: seq<byte>)
      ensures rest == s
    {
      rest := s;
    }

    /** io_simple_read of n octets; None when the stream ends first. */
    method ReadSimple(n: nat) returns (b: Option<seq<byte>>)
      modifies this
      ensures b.None? <==> Take(old(rest), n).None?
      ensures b.Some? ==> Take(old(rest), n) == Some((b.value, rest))
    {
      if n > |rest| {
        return None;
      }
      b := Some(rest[..n]);
      rest := rest[n..];
    }

    /** io_simple_read of a size_t. */
    method ReadSize() returns (n: Option<nat>)
      modifies this
      ensures n.None? <==> SizeAt(old(rest)).None?
      ensures n.Some? ==> SizeAt(old(rest)) == Some((n.value, rest))
    {
      var b := ReadSimple(SizeWidth);
      if b.None? {
        return None;
      }
      n := Some(FromLe(b.value));
    }

    /** io_str_read. */
    method ReadString() returns (s: Option<seq<byte>>)
      modifies this
      ensures s.None? <==> StrAt(old(rest)).None?
      ensures s.Some? ==> StrAt(old(rest)) == Some((s.value, rest))
    {
      var n := ReadSize();
      if n.None? {
        return None;
      }
      s := ReadSimple(n.value);
    }
  }

  /**
   * mft_read: allocate the struct and fill it field by field, the file array
   * with filesz slots written in order. A stream that ends early yields null
   * (the source's readers abort the process instead).
   */
  method Read(r: Reader) returns (p: Mft?)
    modifies r
    ensures p == null <==> Decode(old(r.rest)).None?
    ensures p != null ==> fresh(p) && p.Valid() && p.files != null && fresh(p.files)
    ensures p != null ==> Decode(old(r.rest)) == Some((p.Value(), r.rest))
  {
    ghost var s0 := r.rest;
    var stale := r.ReadSimple(IntWidth);
    if stale.None? {
      DecodeNoFlag(s0);
      return null;
    }
    ghost var s1 := r.rest;
    var file := r.ReadString();
    if file.None? {
      DecodeNoFile(s0, stale.value, s1);
      return null;
    }
    ghost var s2 := r.rest;
    var filesz := r.ReadSize();
    if filesz.None? {
      DecodeNoCount(s0, stale.value, s1, file.value, s2);
      return null;
    }
    ghost var s3 := r.rest;
    var files := ReadEntries(r, filesz.value);
    if files == null {
      DecodeNoEntries(s0, stale.value, s1, file.value, s2, filesz.value, s3);
      return null;
    }
    ghost var s4 := r.rest;
    ghost var entries := files[..];
    var aia := r.ReadString();
    if aia.None? {
      DecodeNoTrailer(s0, stale.value, s1, file.value, s2, filesz.value, s3, entries, s4);
      return null;
    }
    var aki := r.ReadString();
    if aki.None? {
      DecodeNoTrailer(s0, stale.value, s1, file.value, s2, filesz.value, s3, entries, s4);
      return null;
    }
    var ski := r.ReadString();
    if ski.None? {
      DecodeNoTrailer(s0, stale.value, s1, file.value, s2, filesz.value, s3, entries, s4);
      return null;
    }
    DecodeAll(s0, stale.value, s1, file.value, s2, filesz.value, s3, entries, s4, (aia.value, aki.value, ski.value), r.rest);
    p := Assemble(file.value, FromLe(stale.value) != 0, files, aia.value, aki.value, ski.value);
  }

  /** The struct mft_read fills in, with every field it reads. */
  method Assemble(file: seq<byte>, stale: bool, files: array<FileEntry>,
                  aia: seq<byte>, aki: seq<byte>, ski: seq<byte>) returns (p: Mft)
    ensures fresh(p) && p.Valid() && p.files == files
    ensures p.Value() == Manifest(file, stale, None, files[..], aia, aki, ski)
  {
    p := new Mft(file);
    p.stale := stale;
    p.files, p.filesz := files, files.Length;
    p.aia, p.aki, p.ski := aia, aki, ski;
    assert p.Files() == files[..];
  }

  /** The filesz entries of mft_read's loop, written in order into a new array. */
  method ReadEntries(r: Reader, n: nat) returns (files: array?<FileEntry>)
    modifies r
    ensures files == null <==> EntriesAt(old(r.rest), n).None?
    ensures files != null ==> fresh(files) && files.Length == n
    ensures files != null ==> EntriesAt(old(r.rest), n) == Some((files[..], r.rest))
  {
    ghost var s := r.rest;
    files := new FileEntry[n];
    var i := 0;
    while i < n
      invariant 0 <= i <= n && fresh(files) && files.Length == n
      invariant EntriesAt(s, i) == Some((files[..i], r.rest))
    {
      ghost var r0 := r.rest;
      var name := r.ReadString();
      if name.None? {
        EntriesStop(s, i, n);
        return null;
      }
      ghost var r1 := r.rest;
      var hash := r.ReadSimple(Sha256DigestLength);
      if hash.None? {
        EntriesStop(s, i, n);
        return null;
      }
      EntriesSnoc(s, i, files[..i], r0, name.value, r1, hash.value, r.rest);
      files[i] := FileEntry(name.value, hash.value);
      assert files[..i + 1] == files[..i] + [FileEntry(name.value, hash.value)];
      i := i + 1;
    }
    assert files[..i] == files[..];
  }

  /*
   * What Decode answers, stage by stage, in the terms the readers of Read
   * report: each stage that runs out of input makes the whole read fail.
   */

  lemma DecodeNoFlag(s0: seq<byte>)
    requires Take(s0, IntWidth).None?
    ensures Decode(s0).None?
  {
  }

  lemma DecodeNoFile(s0: seq<byte>, st: seq<byte>, s1: seq<byte>)
    requires Take(s0, IntWidth) == Some((st, s1)) && StrAt(s1).None?
    ensures Decode(s0).None?
  {
  }

  lemma DecodeNoCount(s0: seq<byte>, st: seq<byte>, s1: seq<byte>, file: seq<byte>, s2: seq<byte>)
    requires Take(s0, IntWidth) == Some((st, s1)) && StrAt(s1) == Some((file, s2))
    requires SizeAt(s2).None?
    ensures Decode(s0).None?
  {
  }

  lemma DecodeNoEntries(s0: seq<byte>, st: seq<byte>, s1: seq<byte>, file: seq<byte>, s2: seq<byte>,
                        n: nat, s3: seq<byte>)
    requires Take(s0, IntWidth) == Some((st, s1)) && StrAt(s1) == Some((file, s2))
    requires SizeAt(s2) == Some((n, s3)) && EntriesAt(s3, n).None?
    ensures Decode(s0).None?
  {
  }

  lemma DecodeNoTrailer(s0: seq<byte>, st: seq<byte>, s1: seq<byte>, file: seq<byte>, s2: seq<byte>,
                        n: nat, s3: seq<byte>, files: seq<FileEntry>, s4: seq<byte>)
    requires Take(s0, IntWidth) == Some((st, s1)) && StrAt(s1) == Some((file, s2))
    requires SizeAt(s2) == Some((n, s3)) && EntriesAt(s3, n) == Some((files, s4))
    requires TrailerAt(s4).None?
    ensures Decode(s0).None?
  {
  }

  lemma DecodeAll(s0: seq<byte>, st: seq<byte>, s1: seq<byte>, file: seq<byte>, s2: seq<byte>,
                  n: nat, s3: seq<byte>, files: seq<FileEntry>, s4: seq<byte>,
                  trailer: (seq<byte>, seq<byte>, seq<byte>), s7: seq<byte>)
    requires Take(s0, IntWidth) == Some((st, s1)) && StrAt(s1) == Some((file, s2))
    requires SizeAt(s2) == Some((n, s3)) && EntriesAt(s3, n) == Some((files, s4))
    requires TrailerAt(s4) == Some((trailer, s7))
    ensures Decode(s0) == Some((Manifest(file, FromLe(st) != 0, None, files, trailer.0, trailer.1, trailer.2), s7))
  {
  }

  /** One more entry read after i of them. */
  lemma EntriesSnoc(s: seq<byte>, i: nat, es: seq<FileEntry>, r0: seq<byte>,
                    name: seq<byte>, r1: seq<byte>, hash: seq<byte>, r2: seq<byte>)
    requires EntriesAt(s, i) == Some((es, r0))
    requires StrAt(r0) == Some((name, r1)) && Take(r1, Sha256DigestLength) == Some((hash, r2))
    ensures EntriesAt(s, i + 1) == Some((es + [FileEntry(name, hash)], r2))
  {
  }

  lemma EntriesNoneStep(s: seq<byte>, k: nat)
    requires EntriesAt(s, k).None?
    ensures EntriesAt(s, k + 1).None?
  {
  }

  /** An entry that cannot be read ends the file list: no longer count reads it either. */
  lemma EntriesStop(s: seq<byte>, i: nat, n: nat)
    requires i < n && EntriesAt(s, i).Some? && EntryAt(EntriesAt(s, i).value.1).None?
    ensures EntriesAt(s, n).None?
  {
    EntriesStopHere(s, i);
    var k := i + 1;
    while k < n
      invariant i < k <= n && EntriesAt(s, k).None?
    {
      EntriesNoneStep(s, k);
      k := k + 1;
    }
  }

  lemma EntriesStopHere(s: seq<byte>, i: nat)
    requires EntriesAt(s, i).Some? && EntryAt(EntriesAt(s, i).value.1).None?
    ensures EntriesAt(s, i + 1).None?
  {
  }
}
