/** Per-link customization: versioned objects in storage and one row per link
    (backend/router.py, backend/customization_repository.py, backend/storage.py). */
module Customization {
  import opened Authorization
  import opened Common
  import opened Png
  import Links

  const MAX_IMAGE_BYTES: nat := 5 * 1024 * 1024
  const SUFFIX_LEN: nat := 32

  datatype Upload = Upload(filename: string, data: Bytes)

  /** One PUT; `link` is what the token resolves to, `style` is None when the recipe is not a
      JSON object, and the two suffixes are the random parts of the storage keys it may mint. */
  datatype Put = Put(
    link: Option<Links.Link>, user: User, style: Option<string>, image: Bytes, logo: Option<Upload>,
    imageSuffix: string, logoSuffix: string, now: int)

  datatype Row = Row(linkId: nat, styleJson: string, imageKey: string, logoKey: Option<string>, updatedAt: int)

  datatype Response =
    | Saved(imageKey: string, logoKey: Option<string>)
    | NotFound404
    | DemoReadOnly403
    | Invalid422
    | TooLarge413

  /** A stored object, with the content type recorded beside its bytes. */
  datatype Blob = Blob(data: Bytes, contentType: ImageType)

  datatype Store = Store(objects: map<string, Blob>, rows: seq<Row>)

  const EMPTY: Store := Store(map[], [])

  // ---- keys ----

  function BuildKey(token: string, prefix: string, suffix: string, ext: string): string {
    "qr/" + token + "/" + prefix + "_" + suffix + "." + ext
  }

  function Extension(t: ImageType): (ext: string)
    ensures '.' !in ext
  {
    match t
    case PngImage => "png"
    case JpegImage => "jpeg"
    case GifImage => "gif"
    case WebpImage => "webp"
  }

  function CompositeExtension(t: ImageType): (ext: string)
    ensures '.' !in ext
  {
    if t.PngImage? then "png" else "bin"
  }

  /** The part of a key before its last '.'. */
  function Stem(key: string): string {
    if key == "" then "" else if Last(key) == '.' then Front(key) else Stem(Front(key))
  }

  function SuffixOf(key: string): string {
    var stem := Stem(key);
    if |stem| >= SUFFIX_LEN then stem[|stem| - SUFFIX_LEN..] else stem
  }

  lemma {:induction false} StemOf(stem: string, ext: string)
    requires '.' !in ext
    ensures Stem(stem + "." + ext) == stem
  {
    var key := stem + "." + ext;
    if ext == "" {
      assert Front(key) == stem;
    } else {
      assert Front(key) == stem + "." + Front(ext) && Last(key) == Last(ext);
      StemOf(stem, Front(ext));
    }
  }

  /** The random part can be read back off a key. */
  lemma KeySuffix(token: string, prefix: string, suffix: string, ext: string)
    requires |suffix| == SUFFIX_LEN && '.' !in ext
    ensures SuffixOf(BuildKey(token, prefix, suffix, ext)) == suffix
  {
    var stem := "qr/" + token + "/" + prefix + "_" + suffix;
    assert BuildKey(token, prefix, suffix, ext) == stem + "." + ext;
    StemOf(stem, ext);
  }

  // ---- the handler ----

  datatype Checked = Good(data: Bytes, kind: ImageType) | Bad(response: Response)

  /** Size cap, magic-byte sniff, metadata strip. */
  function Validate(data: Bytes): Checked {
    if |data| > MAX_IMAGE_BYTES then Bad(TooLarge413)
    else
      var kind := Sniff(data);
      if kind.None? then Bad(Invalid422) else Good(Strip(data), kind.value)
  }

  /** The logo bytes to store, if the PUT brings any. */
  function RawLogo(p: Put): Bytes {
    if p.logo.Some? && p.logo.value.filename != "" then p.logo.value.data else []
  }

  function Refusal(p: Put): Option<Response> {
    if p.link.None? then Some(NotFound404)
    else if Authorize(p.link.value.ownerId, p.user) == Some(NotFound) then Some(NotFound404)
    else if Authorize(p.link.value.ownerId, p.user) == Some(DemoReadOnly) then Some(DemoReadOnly403)
    else if p.style.None? then Some(Invalid422)
    else if Validate(p.image).Bad? then Some(Validate(p.image).response)
    else if RawLogo(p) != [] && Validate(RawLogo(p)).Bad? then Some(Validate(RawLogo(p)).response)
    else None
  }

  function ImageKey(p: Put): string
    requires Refusal(p).None?
  {
    BuildKey(p.link.value.token, "composite", p.imageSuffix, CompositeExtension(Validate(p.image).kind))
  }

  function LogoKey(p: Put): Option<string>
    requires Refusal(p).None?
  {
    if RawLogo(p) == [] then None
    else Some(BuildKey(p.link.value.token, "logo", p.logoSuffix, Extension(Validate(RawLogo(p)).kind)))
  }

  function LinkIds(rows: seq<Row>): (r: seq<nat>)
    ensures |r| == |rows| && forall i :: 0 <= i < |rows| ==> r[i] == rows[i].linkId
  {
    seq(|rows|, i requires 0 <= i < |rows| => rows[i].linkId)
  }

  /** `get_customization`: the first row for that link. */
  function FindRow(rows: seq<Row>, linkId: nat): (r: Option<nat>)
    ensures r.Some? ==> r.value < |rows| && rows[r.value].linkId == linkId
    ensures r.None? <==> forall i :: 0 <= i < |rows| ==> rows[i].linkId != linkId
  {
    var keys := LinkIds(rows);
    assert forall i :: 0 <= i < |rows| ==> keys[i] in keys;
    IndexOf(keys, linkId)
  }

  function Upsert(rows: seq<Row>, row: Row): seq<Row> {
    var i := FindRow(rows, row.linkId);
    if i.None? then rows + [row] else rows[i.value := row]
  }

  /** What a valid upload is stored as. */
  function BlobOf(data: Bytes): (b: Blob)
    requires Validate(data).Good?
    ensures b.data == Strip(data) && Some(b.contentType) == Sniff(data)
  {
    Blob(Validate(data).data, Validate(data).kind)
  }

  function ImageBlob(p: Put): (b: Blob)
    requires Refusal(p).None?
    ensures b.data == Strip(p.image)
  {
    BlobOf(p.image)
  }

  function LogoBlob(p: Put): (b: Option<Blob>)
    requires Refusal(p).None?
    ensures b.Some? == LogoKey(p).Some? && (b.Some? ==> b.value.data == Strip(RawLogo(p)))
  {
    if RawLogo(p) == [] then None else Some(BlobOf(RawLogo(p)))
  }

  function WriteBoth(
      objects: map<string, Blob>, imageKey: string, image: Blob, logoKey: Option<string>, logo: Option<Blob>):
    map<string, Blob>
  {
    var withImage := objects[imageKey := image];
    if logoKey.None? || logo.None? then withImage else withImage[logoKey.value := logo.value]
  }

  /** The composite first, then the logo if there is one. */
  function Written(objects: map<string, Blob>, p: Put): map<string, Blob>
    requires Refusal(p).None?
  {
    WriteBoth(objects, ImageKey(p), ImageBlob(p), LogoKey(p), LogoBlob(p))
  }

  function NewRow(p: Put): Row
    requires Refusal(p).None?
  {
    Row(p.link.value.id, p.style.value, ImageKey(p), LogoKey(p), p.now)
  }

  function Serve(s: Store, p: Put): (Store, Response) {
    var refusal := Refusal(p);
    if refusal.Some? then (s, refusal.value)
    else (Store(Written(s.objects, p), Upsert(s.rows, NewRow(p))), Saved(ImageKey(p), LogoKey(p)))
  }

  function After(puts: seq<Put>): Store {
    if puts == [] then EMPTY else Serve(After(Front(puts)), Last(puts)).0
  }

  /** The row `FindRow` reports, if any. */
  function RowOf(rows: seq<Row>, linkId: nat): Option<Row> {
    var i := FindRow(rows, linkId);
    if i.None? then None else Some(rows[i.value])
  }

  function ObjectAt(objects: map<string, Blob>, key: string): Option<Bytes> {
    if key in objects then Some(objects[key].data) else None
  }

  /** The image endpoint without a CDN: the composite, or None for the plain QR code. */
  function ImageOf(s: Store, linkId: nat): Option<Bytes> {
    var row := RowOf(s.rows, linkId);
    if row.None? then None else ObjectAt(s.objects, row.value.imageKey)
  }

  /** What the image endpoint answers for a token that resolves to `link`. */
  datatype ImageAnswer = NoSuchLink404 | PlainCode | Composite(data: Bytes)

  function ServeImage(s: Store, link: Option<Links.Link>): ImageAnswer {
    if link.None? then NoSuchLink404
    else
      var image := ImageOf(s, link.value.id);
      if image.None? then PlainCode else Composite(image.value)
  }

  /** The logo endpoint for the owner: the logo, or None for 404. */
  function LogoOf(s: Store, linkId: nat): Option<Bytes> {
    var row := RowOf(s.rows, linkId);
    if row.None? || row.value.logoKey.None? then None else ObjectAt(s.objects, row.value.logoKey.value)
  }

  // ---- what a PUT answers ----

  predicate Recognised(data: Bytes) { IsPng(data) || IsJpeg(data) || IsGif(data) || IsWebp(data) }

  /** At most 5 MiB, with the signature of PNG, JPEG, GIF or WebP. */
  predicate Usable(data: Bytes) { |data| <= 5242880 && Recognised(data) }

  /** A logo counts if it has a file name and any bytes. */
  predicate HasLogo(p: Put) { p.logo.Some? && p.logo.value.filename != "" && p.logo.value.data != [] }

  predicate Owned(p: Put) { p.link.Some? && p.link.value.ownerId == Some(p.user.id) }

  /** A PUT for the link by its own, non-demo owner. */
  predicate OwnersPut(p: Put, linkId: nat) { Owned(p) && p.link.value.id == linkId && !p.user.isDemo }

  lemma ValidateExact(data: Bytes)
    ensures Validate(data) == Bad(TooLarge413) <==> |data| > 5242880
    ensures Validate(data) == Bad(Invalid422) <==> |data| <= 5242880 && !Recognised(data)
    ensures Validate(data).Good? <==> Usable(data)
  {
    SniffExact(data);
  }

  /** The answer to a faulty upload. */
  function Fault(data: Bytes): Response { if |data| > 5242880 then TooLarge413 else Invalid422 }

  lemma RefusalExact(p: Put)
    ensures Refusal(p) ==
      if !Owned(p) then Some(NotFound404)
      else if p.user.isDemo then Some(DemoReadOnly403)
      else if p.style.None? then Some(Invalid422)
      else if !Usable(p.image) then Some(Fault(p.image))
      else if HasLogo(p) && !Usable(p.logo.value.data) then Some(Fault(p.logo.value.data))
      else None
  {
    ValidateExact(p.image);
    ValidateExact(RawLogo(p));
  }

  function CompositeKey(p: Put): string
    requires p.link.Some?
  {
    "qr/" + p.link.value.token + "/" + "composite" + "_" + p.imageSuffix + "." +
    if IsPng(p.image) then "png" else "bin"
  }

  function LogoFileKey(p: Put): string
    requires p.link.Some? && p.logo.Some?
  {
    var data := p.logo.value.data;
    "qr/" + p.link.value.token + "/" + "logo" + "_" + p.logoSuffix + "." +
    if IsPng(data) then "png" else if IsJpeg(data) then "jpeg" else if IsGif(data) then "gif" else "webp"
  }

  /** The row a PUT leaves. */
  function PutRow(p: Put): Row
    requires p.link.Some? && p.style.Some?
  {
    Row(p.link.value.id, p.style.value, CompositeKey(p), if HasLogo(p) then Some(LogoFileKey(p)) else None, p.now)
  }

  lemma TypeNames(data: Bytes)
    requires Sniff(data).Some?
    ensures CompositeExtension(Sniff(data).value) == if IsPng(data) then "png" else "bin"
    ensures Extension(Sniff(data).value) ==
      if IsPng(data) then "png" else if IsJpeg(data) then "jpeg" else if IsGif(data) then "gif" else "webp"
  {
    SniffExact(data);
    SignaturesDiffer(data);
  }

  lemma ImageKeyExact(p: Put)
    requires Refusal(p).None?
    ensures ImageKey(p) == CompositeKey(p)
  {
    TypeNames(p.image);
  }

  lemma LogoKeyExact(p: Put)
    requires Refusal(p).None?
    ensures LogoKey(p) == if HasLogo(p) then Some(LogoFileKey(p)) else None
  {
    if HasLogo(p) {
      TypeNames(p.logo.value.data);
    }
  }

  lemma KeysExact(p: Put)
    requires Refusal(p).None?
    ensures ImageKey(p) == CompositeKey(p)
    ensures LogoKey(p) == if HasLogo(p) then Some(LogoFileKey(p)) else None
    ensures NewRow(p) == PutRow(p)
  {
    ImageKeyExact(p);
    LogoKeyExact(p);
  }

  /** What a PUT answers: 404 unless the link is the caller's own, 403 for a demo account, 422 without
      a style, then 413 or 422 for the image and for a logo that counts; otherwise it is saved, under
      keys that name the token, and only then does anything change. */
  lemma PutExact(s: Store, p: Put)
    ensures var (s', res) := Serve(s, p);
      res == (
        if !Owned(p) then NotFound404
        else if p.user.isDemo then DemoReadOnly403
        else if p.style.None? then Invalid422
        else if !Usable(p.image) then Fault(p.image)
        else if HasLogo(p) && !Usable(p.logo.value.data) then Fault(p.logo.value.data)
        else Saved(CompositeKey(p), if HasLogo(p) then Some(LogoFileKey(p)) else None)) &&
      (!res.Saved? ==> s' == s)
  {
    RefusalExact(p);
    if Refusal(p).None? {
      KeysExact(p);
    }
  }

  // ---- over whole runs ----

  /** The suffixes a run has drawn. */
  function Drawn(puts: seq<Put>): set<string> {
    if puts == [] then {} else Drawn(Front(puts)) + {Last(puts).imageSuffix, Last(puts).logoSuffix}
  }

  /** The suffixes this PUT draws are new. */
  ghost predicate Draws(p: Put, drawn: set<string>) {
    |p.imageSuffix| == |p.logoSuffix| == SUFFIX_LEN && p.imageSuffix != p.logoSuffix &&
    p.imageSuffix !in drawn && p.logoSuffix !in drawn
  }

  /** Every suffix in the run is new when it is drawn. */
  ghost predicate FreshSuffixes(puts: seq<Put>) {
    puts != [] ==>
      FreshSuffixes(Front(puts)) && Draws(Last(puts), Drawn(Front(puts)))
  }

  ghost predicate RowStored(s: Store, row: Row) {
    row.imageKey in s.objects && (row.logoKey.Some? ==> row.logoKey.value in s.objects)
  }

  /** The recorded content type is what the bytes are recognised as. */
  predicate FitsType(b: Blob) { Sniff(b.data) == Some(b.contentType) }

  ghost predicate Typed(objects: map<string, Blob>) {
    forall k :: k in objects ==> FitsType(objects[k])
  }

  /** Rows point at stored objects, there is one per link, keys carry drawn suffixes, and
      content types fit. */
  ghost predicate Valid(s: Store, drawn: set<string>) {
    Typed(s.objects) &&
    (forall k :: k in s.objects ==> SuffixOf(k) in drawn) &&
    (forall i :: 0 <= i < |s.rows| ==> RowStored(s, s.rows[i])) &&
    (forall i, j :: 0 <= i < j < |s.rows| ==> s.rows[i].linkId != s.rows[j].linkId)
  }

  lemma MintedKeysAreNew(s: Store, drawn: set<string>, p: Put)
    requires Valid(s, drawn) && Refusal(p).None? && Draws(p, drawn)
    ensures ImageKey(p) !in s.objects && SuffixOf(ImageKey(p)) == p.imageSuffix
    ensures LogoKey(p).Some? ==>
      LogoKey(p).value !in s.objects && LogoKey(p).value != ImageKey(p) && SuffixOf(LogoKey(p).value) == p.logoSuffix
  {
    KeySuffix(p.link.value.token, "composite", p.imageSuffix, CompositeExtension(Validate(p.image).kind));
    if LogoKey(p).Some? {
      KeySuffix(p.link.value.token, "logo", p.logoSuffix, Extension(Validate(RawLogo(p)).kind));
    }
  }

  lemma WriteBothFacts(
      objects: map<string, Blob>, imageKey: string, image: Blob, logoKey: Option<string>, logo: Option<Blob>)
    requires imageKey !in objects && logoKey.Some? == logo.Some?
    requires logoKey.Some? ==> logoKey.value !in objects && logoKey.value != imageKey
    ensures var written := WriteBoth(objects, imageKey, image, logoKey, logo);
      (forall k :: k in objects ==> k in written && written[k] == objects[k]) &&
      (forall k :: k in written ==> k in objects || k == imageKey || Some(k) == logoKey) &&
      imageKey in written && written[imageKey] == image &&
      (logoKey.Some? ==> logoKey.value in written && Some(written[logoKey.value]) == logo)
  {
  }

  lemma BlobFits(data: Bytes)
    requires Validate(data).Good?
    ensures FitsType(BlobOf(data))
  {
    StripKeepsType(data);
  }

  lemma WriteBothTyped(
      objects: map<string, Blob>, imageKey: string, image: Blob, logoKey: Option<string>, logo: Option<Blob>)
    requires Typed(objects) && FitsType(image) && (logo.Some? ==> FitsType(logo.value))
    ensures Typed(WriteBoth(objects, imageKey, image, logoKey, logo))
  {
  }

  /** Writing under new keys keeps every old object and stores the uploads. */
  lemma WrittenKeeps(s: Store, drawn: set<string>, p: Put)
    requires Valid(s, drawn) && Refusal(p).None? && Draws(p, drawn)
    ensures var objects := Written(s.objects, p);
      (forall k :: k in s.objects ==> k in objects && objects[k] == s.objects[k]) &&
      (forall k :: k in objects ==> SuffixOf(k) in drawn + {p.imageSuffix, p.logoSuffix}) &&
      ImageKey(p) in objects && objects[ImageKey(p)] == ImageBlob(p) &&
      (LogoKey(p).Some? ==> LogoKey(p).value in objects && Some(objects[LogoKey(p).value]) == LogoBlob(p))
  {
    MintedKeysAreNew(s, drawn, p);
    WriteBothFacts(s.objects, ImageKey(p), ImageBlob(p), LogoKey(p), LogoBlob(p));
  }

  lemma WrittenTyped(objects: map<string, Blob>, p: Put)
    requires Typed(objects) && Refusal(p).None?
    ensures Typed(Written(objects, p))
  {
    BlobFits(p.image);
    if RawLogo(p) != [] {
      BlobFits(RawLogo(p));
    }
    WriteBothTyped(objects, ImageKey(p), ImageBlob(p), LogoKey(p), LogoBlob(p));
  }

  lemma UpsertFacts(rows: seq<Row>, row: Row)
    ensures FindRow(Upsert(rows, row), row.linkId).Some?
    ensures (forall i, j :: 0 <= i < j < |rows| ==> rows[i].linkId != rows[j].linkId) ==>
      var rows' := Upsert(rows, row);
      (forall i, j :: 0 <= i < j < |rows'| ==> rows'[i].linkId != rows'[j].linkId)
    ensures forall r :: r in Upsert(rows, row) ==> r == row || r in rows
  {
    var i := FindRow(rows, row.linkId);
    var rows' := Upsert(rows, row);
    if i.None? {
      assert rows'[|rows|] == row;
    } else {
      assert rows'[i.value] == row;
    }
  }

  /** An upsert sets its own link's row and no other. */
  lemma UpsertSets(rows: seq<Row>, row: Row, linkId: nat)
    ensures RowOf(Upsert(rows, row), linkId) == if linkId == row.linkId then Some(row) else RowOf(rows, linkId)
  {
    var i := FindRow(rows, row.linkId);
    if i.None? {
      assert Front(LinkIds(rows + [row])) == LinkIds(rows);
    } else {
      assert LinkIds(rows[i.value := row]) == LinkIds(rows);
    }
  }

  lemma ServeValid(s: Store, drawn: set<string>, p: Put)
    requires Valid(s, drawn) && Draws(p, drawn)
    ensures Valid(Serve(s, p).0, drawn + {p.imageSuffix, p.logoSuffix})
    ensures forall k :: k in s.objects ==> k in Serve(s, p).0.objects && Serve(s, p).0.objects[k] == s.objects[k]
  {
    if Refusal(p).None? {
      WrittenKeeps(s, drawn, p);
      WrittenTyped(s.objects, p);
      UpsertFacts(s.rows, NewRow(p));
      var s' := Serve(s, p).0;
      forall i | 0 <= i < |s'.rows| ensures RowStored(s', s'.rows[i]) {
        assert s'.rows[i] in s'.rows;
        assert s'.rows[i] != NewRow(p) ==> RowStored(s, s'.rows[i]);
      }
    }
  }

  /** The store invariant: in every run whose suffixes are fresh, every row's objects exist,
      each link has at most one row, and objects are of the type recorded for them. */
  lemma {:induction false} StoreInvariant(puts: seq<Put>)
    requires FreshSuffixes(puts)
    ensures Valid(After(puts), Drawn(puts))
  {
    if puts != [] {
      StoreInvariant(Front(puts));
      ServeValid(After(Front(puts)), Drawn(Front(puts)), Last(puts));
    }
  }

  /** No stored object is ever overwritten or lost. */
  lemma {:induction false} NeverOverwritten(puts: seq<Put>, more: seq<Put>, key: string)
    requires FreshSuffixes(puts + more) && key in After(puts).objects
    ensures key in After(puts + more).objects && After(puts + more).objects[key] == After(puts).objects[key]
  {
    if more == [] {
      assert puts + more == puts;
    } else {
      var run := puts + more;
      assert Front(run) == puts + Front(more);
      NeverOverwritten(puts, Front(more), key);
      StoreInvariant(Front(run));
      ServeValid(After(Front(run)), Drawn(Front(run)), Last(run));
    }
  }

  /** Is this PUT for the link, from its own non-demo owner, with a style and usable uploads? */
  predicate Accepted(p: Put, linkId: nat) {
    OwnersPut(p, linkId) && p.style.Some? && Usable(p.image) && (HasLogo(p) ==> Usable(p.logo.value.data))
  }

  lemma AcceptedExact(p: Put, linkId: nat)
    ensures Accepted(p, linkId) <==> Refusal(p).None? && p.link.value.id == linkId
  {
    if p.link.Some? {
      RefusalExact(p);
    }
  }

  /** The image, and the logo, of the link's last accepted PUT, stripped. */
  function LastImage(puts: seq<Put>, linkId: nat): Option<Bytes> {
    if puts == [] then None
    else if Accepted(Last(puts), linkId) then Some(Strip(Last(puts).image))
    else LastImage(Front(puts), linkId)
  }

  function LastRow(puts: seq<Put>, linkId: nat): Option<Row> {
    if puts == [] then None
    else if Accepted(Last(puts), linkId) then Some(PutRow(Last(puts)))
    else LastRow(Front(puts), linkId)
  }

  function LastLogo(puts: seq<Put>, linkId: nat): Option<Bytes> {
    if puts == [] then None
    else if Accepted(Last(puts), linkId) then
      (if HasLogo(Last(puts)) then Some(Strip(Last(puts).logo.value.data)) else None)
    else LastLogo(Front(puts), linkId)
  }

  lemma RowServed(s: Store, p: Put, linkId: nat)
    ensures RowOf(Serve(s, p).0.rows, linkId) == if Accepted(p, linkId) then Some(PutRow(p)) else RowOf(s.rows, linkId)
  {
    AcceptedExact(p, linkId);
    if Refusal(p).None? {
      UpsertSets(s.rows, NewRow(p), linkId);
      KeysExact(p);
    }
  }

  /** What an unchanged row shows is unchanged when old objects are kept. */
  lemma KeptShows(s: Store, s': Store, linkId: nat)
    requires RowOf(s'.rows, linkId) == RowOf(s.rows, linkId)
    requires forall k :: k in s.objects ==> k in s'.objects && s'.objects[k] == s.objects[k]
    requires RowOf(s.rows, linkId).Some? ==> RowStored(s, RowOf(s.rows, linkId).value)
    ensures ImageOf(s', linkId) == ImageOf(s, linkId) && LogoOf(s', linkId) == LogoOf(s, linkId)
  {
  }

  lemma ServeShows(s: Store, drawn: set<string>, p: Put, linkId: nat)
    requires Valid(s, drawn) && Draws(p, drawn)
    ensures var s' := Serve(s, p).0;
      if Accepted(p, linkId) then
        ImageOf(s', linkId) == Some(Strip(p.image)) &&
        LogoOf(s', linkId) == if HasLogo(p) then Some(Strip(p.logo.value.data)) else None
      else ImageOf(s', linkId) == ImageOf(s, linkId) && LogoOf(s', linkId) == LogoOf(s, linkId)
  {
    AcceptedExact(p, linkId);
    if Refusal(p).None? {
      WrittenKeeps(s, drawn, p);
      UpsertSets(s.rows, NewRow(p), linkId);
      if !Accepted(p, linkId) {
        KeptShows(s, Serve(s, p).0, linkId);
      }
    }
  }

  /** In every run with fresh suffixes, whatever other links do, each link's image and logo
      endpoints serve the stripped bytes of its own last accepted PUT. */
  lemma {:induction false} ServesLastPut(puts: seq<Put>, linkId: nat)
    requires FreshSuffixes(puts)
    ensures ImageOf(After(puts), linkId) == LastImage(puts, linkId)
    ensures LogoOf(After(puts), linkId) == LastLogo(puts, linkId)
    ensures RowOf(After(puts).rows, linkId) == LastRow(puts, linkId)
  {
    if puts != [] {
      ServesLastPut(Front(puts), linkId);
      StoreInvariant(Front(puts));
      ServeShows(After(Front(puts)), Drawn(Front(puts)), Last(puts), linkId);
      RowServed(After(Front(puts)), Last(puts), linkId);
    }
  }

  /** What a link shows changes only through a PUT by that link's own, non-demo owner. */
  lemma {:induction false} OnlyOwnerRestyles(puts: seq<Put>, more: seq<Put>, linkId: nat)
    requires FreshSuffixes(puts + more) && forall k :: 0 <= k < |more| ==> !OwnersPut(more[k], linkId)
    ensures ImageOf(After(puts + more), linkId) == ImageOf(After(puts), linkId)
    ensures LogoOf(After(puts + more), linkId) == LogoOf(After(puts), linkId)
  {
    if more == [] {
      assert puts + more == puts;
    } else {
      var run := puts + more;
      assert Front(run) == puts + Front(more) && Last(run) == Last(more);
      assert !OwnersPut(Last(more), linkId);
      OnlyOwnerRestyles(puts, Front(more), linkId);
      StoreInvariant(Front(run));
      ServeShows(After(Front(run)), Drawn(Front(run)), Last(run), linkId);
    }
  }

  /** The image endpoint: 404 for an unknown token, the last accepted PUT's picture for a link that
      has one, and the plain code otherwise. */
  lemma ImageEndpoint(puts: seq<Put>, link: Option<Links.Link>)
    requires FreshSuffixes(puts)
    ensures var answer := ServeImage(After(puts), link);
      (answer == NoSuchLink404 <==> link.None?) &&
      (link.Some? ==>
        match LastImage(puts, link.value.id)
        case Some(image) => answer == Composite(image)
        case None => answer == PlainCode)
  {
    if link.Some? {
      ServesLastPut(puts, link.value.id);
    }
  }

  // ---- the objects ----

  class InMemoryGateway {
    var store: map<string, Blob>

    constructor ()
      ensures store == map[]
    {
      store := map[];
    }

    method Put(key: string, data: Bytes, contentType: ImageType)
      modifies this
      ensures store == old(store)[key := Blob(data, contentType)]
    {
      store := store[key := Blob(data, contentType)];
    }

    method Get(key: string) returns (data: Option<Bytes>)
      ensures data == if key in store then Some(store[key].data) else None
    {
      data := if key in store then Some(store[key].data) else None;
    }
  }

  class CustomizationService {
    var rows: seq<Row>
    const storage: InMemoryGateway

    constructor ()
      ensures View() == EMPTY && fresh(storage)
    {
      rows := [];
      storage := new InMemoryGateway();
    }

    function View(): Store
      reads this, storage
    {
      Store(storage.store, rows)
    }

    method GetCustomization(linkId: nat) returns (found: Option<nat>)
      ensures found == FindRow(rows, linkId)
    {
      found := None;
      for i := 0 to |rows|
        invariant found == FindRow(rows[..i], linkId)
      {
        assert Front(LinkIds(rows[..i + 1])) == LinkIds(rows[..i]);
        if found.None? && rows[i].linkId == linkId {
          found := Some(i);
        }
      }
      assert rows[..|rows|] == rows;
    }

    method UpsertCustomization(linkId: nat, styleJson: string, imageKey: string, logoKey: Option<string>, now: int)
      modifies this`rows
      ensures rows == Upsert(old(rows), Row(linkId, styleJson, imageKey, logoKey, now))
    {
      var found := GetCustomization(linkId);
      if found.None? {
        rows := rows + [Row(linkId, styleJson, imageKey, logoKey, now)];
      } else {
        var row := rows[found.value];
        row := row.(styleJson := styleJson, imageKey := imageKey, logoKey := logoKey, updatedAt := now);
        rows := rows[found.value := row];
      }
    }

    method ValidateAndStripImage(data: Bytes) returns (checked: Checked)
      ensures checked == Validate(data)
    {
      if |data| > MAX_IMAGE_BYTES {
        return Bad(TooLarge413);
      }
      var kind := Sniff(data);
      if kind.None? {
        return Bad(Invalid422);
      }
      var stripped := StripPngExif(data);
      checked := Good(stripped, kind.value);
    }

    method PutCustomization(p: Put) returns (res: Response)
      modifies this`rows, storage
      ensures (View(), res) == Serve(old(View()), p)
    {
      if p.link.None? {
        return NotFound404;
      }
      var denial := Authorize(p.link.value.ownerId, p.user);
      if denial.Some? {
        return if denial.value.NotFound? then NotFound404 else DemoReadOnly403;
      }
      if p.style.None? {
        return Invalid422;
      }
      var image := ValidateAndStripImage(p.image);
      if image.Bad? {
        return image.response;
      }
      var logo: Option<Checked> := None;
      if p.logo.Some? && p.logo.value.filename != "" && p.logo.value.data != [] {
        var checked := ValidateAndStripImage(p.logo.value.data);
        if checked.Bad? {
          return checked.response;
        }
        logo := Some(checked);
      }
      var token := p.link.value.token;
      var imageKey := BuildKey(token, "composite", p.imageSuffix, CompositeExtension(image.kind));
      storage.Put(imageKey, image.data, image.kind);
      var logoKey: Option<string> := None;
      if logo.Some? {
        logoKey := Some(BuildKey(token, "logo", p.logoSuffix, Extension(logo.value.kind)));
        storage.Put(logoKey.value, logo.value.data, logo.value.kind);
      }
      UpsertCustomization(p.link.value.id, p.style.value, imageKey, logoKey, p.now);
      res := Saved(imageKey, logoKey);
    }

    method QrImage(link: Option<Links.Link>) returns (answer: ImageAnswer)
      ensures answer == ServeImage(View(), link)
    {
      if link.None? {
        return NoSuchLink404;
      }
      var found := GetCustomization(link.value.id);
      if found.Some? {
        var composite := storage.Get(rows[found.value].imageKey);
        if composite.Some? {
          return Composite(composite.value);
        }
      }
      answer := PlainCode;
    }
  }
}
