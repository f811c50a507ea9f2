/** Reading the layers of an image archive (scripts/image_storage_metrics.py): every payload is
    looked up by name and checked against its identity and against the sizes seen so far. */
module ImageArchive {
  import opened LayerSharing
  import opened Wrappers

  /** `compressed` tells whether the first bytes mark a gzip or zstd payload. */
  datatype Payload = Payload(size: nat, digest: string, compressed: bool)

  datatype Member = Directory | File(payload: Payload)

  /** `path` stands for `_path`, which normalises a member name or rejects it. */
  datatype Archive = Archive(path: string -> Option<string>, members: map<string, Member>)

  /** What the manifest and the config say about the layers of one image. */
  datatype Image = Image(config: string, names: seq<string>, diffIds: seq<string>)

  datatype Fault = BadMetadata | BadPath | MissingPayload | WrongBlob | WrongDigest | WrongSize

  const MAX_LAYERS := 4096

  predicate IsHex(text: string) {
    forall i :: 0 <= i < |text| ==> '0' <= text[i] <= '9' || 'a' <= text[i] <= 'f'
  }

  predicate IsDigest(text: string) {
    |text| == 71 && text[..7] == "sha256:" && IsHex(text[7..])
  }

  /** The name of a member that is stored under its own digest. */
  predicate NamesBlob(name: string) {
    |name| == 77 && name[..13] == "blobs/sha256/" && IsHex(name[13..])
  }

  predicate WellFormed(image: Image) {
    && |image.names| == |image.diffIds| <= MAX_LAYERS
    && forall i :: 0 <= i < |image.diffIds| ==> IsDigest(image.diffIds[i])
  }

  /** The payload that a layer name stands for. */
  function Fetch(archive: Archive, config: string, name: string): Result<Payload, Fault> {
    match archive.path(name)
    case None => Failure(BadPath)
    case Some(member) =>
      if member !in archive.members || archive.members[member].Directory? || member == config || member == "manifest.json" then
        Failure(MissingPayload)
      else
        var item := archive.members[member].payload;
        if NamesBlob(member) && item.digest != "sha256:" + member[13..] then Failure(WrongBlob) else Success(item)
  }

  /** Layer `i` has a payload that matches its diff ID, as far as that can be seen without unpacking. */
  predicate Named(archive: Archive, image: Image, i: nat)
    requires i < |image.names| == |image.diffIds|
  {
    match Fetch(archive, image.config, image.names[i])
    case Failure(_) => false
    case Success(item) => item.compressed || item.digest == image.diffIds[i]
  }

  function SizeAt(archive: Archive, image: Image, i: nat): nat
    requires i < |image.names| == |image.diffIds| && Named(archive, image, i)
  {
    Fetch(archive, image.config, image.names[i]).value.size
  }

  /** Layer `i` has the given diff ID and size. */
  predicate Carries(archive: Archive, image: Image, i: nat, diffId: string, size: nat) {
    && i < |image.names| == |image.diffIds|
    && image.diffIds[i] == diffId && Named(archive, image, i) && SizeAt(archive, image, i) == size
  }

  /** `sizes` has the size of layer `i` under its diff ID. */
  predicate Lists(archive: Archive, image: Image, sizes: map<string, nat>, i: nat)
    requires i < |image.names| == |image.diffIds|
  {
    && Named(archive, image, i)
    && image.diffIds[i] in sizes && sizes[image.diffIds[i]] == SizeAt(archive, image, i)
  }

  /** The first `n` layers have their payloads. */
  predicate NamedUpTo(archive: Archive, image: Image, n: nat) {
    n <= |image.names| == |image.diffIds| && forall i :: 0 <= i < n ==> Named(archive, image, i)
  }

  /** All layers have their payloads, and the sizes that `sizes` gives their diff IDs. */
  ghost predicate Fits(archive: Archive, image: Image, sizes: map<string, nat>) {
    && WellFormed(image) && NamedUpTo(archive, image, |image.diffIds|)
    && forall i :: 0 <= i < |image.diffIds| ==> Lists(archive, image, sizes, i)
  }

  /** A payload of another size was recorded before, or belongs to an earlier layer of the image. */
  predicate Clashes(archive: Archive, image: Image, before: map<string, nat>, i: nat)
    requires i < |image.names| == |image.diffIds| && Named(archive, image, i)
  {
    var diffId, size := image.diffIds[i], SizeAt(archive, image, i);
    || (diffId in before && before[diffId] != size)
    || exists j :: 0 <= j < i && image.diffIds[j] == diffId && Named(archive, image, j) && SizeAt(archive, image, j) != size
  }

  /** The check that layer `i` fails, if any. */
  function FaultAt(archive: Archive, image: Image, before: map<string, nat>, i: nat): Option<Fault>
    requires i < |image.names| == |image.diffIds|
  {
    match Fetch(archive, image.config, image.names[i])
    case Failure(fault) => Some(fault)
    case Success(item) =>
      if !Named(archive, image, i) then Some(WrongDigest)
      else if Clashes(archive, image, before, i) then Some(WrongSize)
      else None
  }

  /** The first `n` layers of an image. */
  function LayersOf(hash: string -> string, archive: Archive, image: Image, n: nat): (r: seq<Layer>)
    requires NamedUpTo(archive, image, n)
  {
    seq(n, i requires 0 <= i < n => Layer(image.diffIds[i], SizeAt(archive, image, i), IdAt(hash, image.diffIds, i)))
  }

  function AllLayers(hash: string -> string, archive: Archive, image: Image): seq<Layer>
    requires NamedUpTo(archive, image, |image.diffIds|)
  {
    LayersOf(hash, archive, image, |image.diffIds|)
  }

  // ----- one image -----

  /** The archive's size table after the first `n` layers of an image. */
  ghost predicate Recorded(archive: Archive, image: Image, before: map<string, nat>, n: nat, sizes: map<string, nat>)
    requires n <= |image.names| == |image.diffIds|
  {
    && (forall k :: k in before ==> k in sizes && sizes[k] == before[k])
    && (forall j :: 0 <= j < n ==> Lists(archive, image, sizes, j))
    && (forall k :: k in sizes ==> k in before || k in image.diffIds[..n])
  }

  /** A recorded size that differs comes from the table before or from an earlier layer. */
  lemma ClashSeen(archive: Archive, image: Image, before: map<string, nat>, n: nat, sizes: map<string, nat>)
    requires n < |image.names| == |image.diffIds| && Named(archive, image, n)
    requires Recorded(archive, image, before, n, sizes)
    ensures Clashes(archive, image, before, n)
            <==> image.diffIds[n] in sizes && sizes[image.diffIds[n]] != SizeAt(archive, image, n)
  {
    var diffId := image.diffIds[n];
    if diffId in sizes && diffId !in before {
      var j :| 0 <= j < n && image.diffIds[..n][j] == diffId;
      assert Lists(archive, image, sizes, j);
    }
    forall j | 0 <= j < n && image.diffIds[j] == diffId
      ensures Named(archive, image, j) && diffId in sizes && sizes[diffId] == SizeAt(archive, image, j)
    {
      assert Lists(archive, image, sizes, j);
    }
  }

  lemma RecordedNext(archive: Archive, image: Image, before: map<string, nat>, n: nat, sizes: map<string, nat>)
    requires n < |image.names| == |image.diffIds| && Named(archive, image, n)
    requires Recorded(archive, image, before, n, sizes) && !Clashes(archive, image, before, n)
    ensures Recorded(archive, image, before, n + 1, sizes[image.diffIds[n] := SizeAt(archive, image, n)])
  {
    ClashSeen(archive, image, before, n, sizes);
    var next := sizes[image.diffIds[n] := SizeAt(archive, image, n)];
    assert image.diffIds[..n + 1] == image.diffIds[..n] + [image.diffIds[n]];
    forall j | 0 <= j < n + 1 ensures Lists(archive, image, next, j) {
      if j < n { assert Lists(archive, image, sizes, j); }
    }
  }

  lemma NextLayer(hash: string -> string, archive: Archive, image: Image, n: nat)
    requires n < |image.diffIds| && NamedUpTo(archive, image, n) && NamedUpTo(archive, image, n + 1)
    ensures LayersOf(hash, archive, image, n + 1)
            == LayersOf(hash, archive, image, n)
               + [Layer(image.diffIds[n], SizeAt(archive, image, n), IdAt(hash, image.diffIds, n))]
  {
  }

  /** The first `n` layers have been read without a fault, and the table has grown by them. */
  ghost predicate ReadUpTo(hash: string -> string, archive: Archive, image: Image, before: map<string, nat>, n: nat,
                           layers: seq<Layer>, sizes: map<string, nat>) {
    && NamedUpTo(archive, image, n)
    && (forall i :: 0 <= i < n ==> FaultAt(archive, image, before, i) == None)
    && layers == LayersOf(hash, archive, image, n)
    && Recorded(archive, image, before, n, sizes)
  }

  /** The whole image has been read. */
  ghost predicate ReadsAll(hash: string -> string, archive: Archive, image: Image, before: map<string, nat>,
                           layers: seq<Layer>, sizes: map<string, nat>) {
    WellFormed(image) && ReadUpTo(hash, archive, image, before, |image.diffIds|, layers, sizes)
  }

  /** `fault` is what the first faulty layer of a well-formed image fails. */
  ghost predicate FailsFirst(archive: Archive, image: Image, before: map<string, nat>, fault: Fault) {
    if !WellFormed(image) then fault == BadMetadata
    else
      exists i :: 0 <= i < |image.diffIds| && FaultAt(archive, image, before, i) == Some(fault)
                  && forall j :: 0 <= j < i ==> FaultAt(archive, image, before, j) == None
  }

  lemma FaultIsFirst(hash: string -> string, archive: Archive, image: Image, before: map<string, nat>, n: nat,
                     layers: seq<Layer>, sizes: map<string, nat>, fault: Fault)
    requires WellFormed(image) && n < |image.diffIds| && ReadUpTo(hash, archive, image, before, n, layers, sizes)
    requires FaultAt(archive, image, before, n) == Some(fault)
    ensures FailsFirst(archive, image, before, fault)
  {
  }

  lemma ReadNext(hash: string -> string, archive: Archive, image: Image, before: map<string, nat>, n: nat,
                 layers: seq<Layer>, sizes: map<string, nat>, sizes': map<string, nat>)
    requires n < |image.names| == |image.diffIds| && ReadUpTo(hash, archive, image, before, n, layers, sizes)
    requires FaultAt(archive, image, before, n) == None && Recorded(archive, image, before, n + 1, sizes')
    ensures Named(archive, image, n)
    ensures var next := layers + [Layer(image.diffIds[n], SizeAt(archive, image, n), IdAt(hash, image.diffIds, n))];
            ReadUpTo(hash, archive, image, before, n + 1, next, sizes')
  {
    NextLayer(hash, archive, image, n);
  }

  /** The checks of one layer and the recording of its size. */
  method CheckLayer(archive: Archive, image: Image, i: nat, sizes: map<string, nat>, ghost before: map<string, nat>)
      returns (r: Result<Payload, Fault>, sizes': map<string, nat>)
    requires i < |image.names| == |image.diffIds| && Recorded(archive, image, before, i, sizes)
    ensures match r
            case Failure(fault) => FaultAt(archive, image, before, i) == Some(fault)
            case Success(item) =>
              && FaultAt(archive, image, before, i) == None && SizeAt(archive, image, i) == item.size
              && Recorded(archive, image, before, i + 1, sizes')
  {
    sizes' := sizes;
    var diffId := image.diffIds[i];
    r := Fetch(archive, image.config, image.names[i]);
    if r.Failure? { return; }
    var item := r.value;
    if !item.compressed && item.digest != diffId { return Failure(WrongDigest), sizes; }
    ClashSeen(archive, image, before, i, sizes);
    if diffId in sizes && sizes[diffId] != item.size { return Failure(WrongSize), sizes; }
    RecordedNext(archive, image, before, i, sizes);
    sizes' := sizes[diffId := item.size];
  }

  /** The layer loop of `read_image_archive`; `contentSizes` is shared by all images of the archive. */
  method ReadLayers(hash: string -> string, archive: Archive, image: Image, contentSizes: map<string, nat>)
      returns (r: Result<seq<Layer>, Fault>, sizes: map<string, nat>)
    ensures match r
            case Success(layers) => ReadsAll(hash, archive, image, contentSizes, layers, sizes)
            case Failure(fault) => FailsFirst(archive, image, contentSizes, fault)
  {
    sizes := contentSizes;
    if !WellFormed(image) { return Failure(BadMetadata), sizes; }
    var layers: seq<Layer> := [];
    var parent: Option<string> := None;
    for i := 0 to |image.diffIds|
      invariant ReadUpTo(hash, archive, image, contentSizes, i, layers, sizes)
      invariant parent == if i == 0 then None else Some(IdAt(hash, image.diffIds, i - 1))
    {
      var item, sizes' := CheckLayer(archive, image, i, sizes, contentSizes);
      if item.Failure? {
        FaultIsFirst(hash, archive, image, contentSizes, i, layers, sizes, item.error);
        return Failure(item.error), sizes;
      }
      NextId(hash, image.diffIds, i);
      ReadNext(hash, archive, image, contentSizes, i, layers, sizes, sizes');
      parent := Some(Chain(hash, parent, image.diffIds[i]));
      layers, sizes := layers + [Layer(image.diffIds[i], item.value.size, parent.value)], sizes';
    }
    r := Success(layers);
  }

  // ----- the whole archive -----

  /** Every recorded size is that of a layer of one of the first `n` images. */
  ghost predicate Sourced(archive: Archive, images: seq<Image>, n: nat, sizes: map<string, nat>)
    requires n <= |images|
  {
    forall k :: k in sizes ==> exists i, j: nat :: 0 <= i < n && Carries(archive, images[i], j, k, sizes[k])
  }

  /** The first `n` images fit the same table. */
  ghost predicate FitTogether(archive: Archive, images: seq<Image>, n: nat, sizes: map<string, nat>)
    requires n <= |images|
  {
    forall i :: 0 <= i < n ==> Fits(archive, images[i], sizes)
  }

  /** So every table that all these images fit has the recorded sizes. */
  lemma SourcedIsForced(archive: Archive, images: seq<Image>, n: nat, sizes: map<string, nat>, all: map<string, nat>)
    requires n <= |images| && FitTogether(archive, images, n, all)
    requires Sourced(archive, images, n, sizes)
    ensures forall k :: k in sizes ==> k in all && all[k] == sizes[k]
  {
    forall k | k in sizes ensures k in all && all[k] == sizes[k] {
      var i, j: nat :| 0 <= i < n && Carries(archive, images[i], j, k, sizes[k]);
      assert Lists(archive, images[i], all, j);
    }
  }

  /** An image that fits such a table has no fault. */
  lemma FittingHasNoFault(archive: Archive, image: Image, before: map<string, nat>, all: map<string, nat>)
    requires Fits(archive, image, all) && forall k :: k in before ==> k in all && all[k] == before[k]
    ensures forall i :: 0 <= i < |image.diffIds| ==> FaultAt(archive, image, before, i) == None
  {
    forall i | 0 <= i < |image.diffIds| ensures FaultAt(archive, image, before, i) == None {
      assert Lists(archive, image, all, i);
      forall j | 0 <= j < i && image.diffIds[j] == image.diffIds[i]
        ensures SizeAt(archive, image, j) == SizeAt(archive, image, i)
      {
        assert Lists(archive, image, all, j);
      }
    }
  }

  lemma FailureMeansNoTable(archive: Archive, images: seq<Image>, n: nat, sizes: map<string, nat>, fault: Fault,
                            all: map<string, nat>)
    requires n < |images| && Sourced(archive, images, n, sizes) && FailsFirst(archive, images[n], sizes, fault)
    ensures !FitTogether(archive, images, |images|, all)
  {
    if FitTogether(archive, images, |images|, all) {
      SourcedIsForced(archive, images, n, sizes, all);
      FittingHasNoFault(archive, images[n], sizes, all);
      assert false;
    }
  }

  lemma FitsNext(hash: string -> string, archive: Archive, images: seq<Image>, n: nat, before: map<string, nat>,
                 layers: seq<Layer>, sizes: map<string, nat>)
    requires n < |images| && ReadsAll(hash, archive, images[n], before, layers, sizes)
    requires FitTogether(archive, images, n, before)
    ensures FitTogether(archive, images, n + 1, sizes)
  {
    forall i | 0 <= i < n ensures Fits(archive, images[i], sizes) {
      forall j | 0 <= j < |images[i].diffIds| ensures Lists(archive, images[i], sizes, j) {
        assert Lists(archive, images[i], before, j);
      }
    }
  }

  lemma SourcedNext(hash: string -> string, archive: Archive, images: seq<Image>, n: nat, before: map<string, nat>,
                    layers: seq<Layer>, sizes: map<string, nat>)
    requires n < |images| && ReadsAll(hash, archive, images[n], before, layers, sizes)
    requires Sourced(archive, images, n, before)
    ensures Sourced(archive, images, n + 1, sizes)
  {
    forall k | k in sizes
      ensures exists i, j: nat :: 0 <= i < n + 1 && Carries(archive, images[i], j, k, sizes[k])
    {
      if k in before {
        var i, j: nat :| 0 <= i < n && Carries(archive, images[i], j, k, before[k]);
        assert Carries(archive, images[i], j, k, sizes[k]);
      } else {
        var j :| 0 <= j < |images[n].diffIds| && images[n].diffIds[j] == k;
        assert Lists(archive, images[n], sizes, j);
        assert Carries(archive, images[n], j, k, sizes[k]);
      }
    }
  }

  /** The image loop of `read_image_archive`. It succeeds exactly when one table of sizes fits every
      image, that is, when no diff ID of the archive has two sizes. */
  method ReadArchive(hash: string -> string, archive: Archive, images: seq<Image>)
      returns (r: Result<seq<seq<Layer>>, Fault>)
    ensures r.Success? <==> exists sizes :: FitTogether(archive, images, |images|, sizes)
    ensures r.Success? ==>
              |r.value| == |images|
              && forall i :: 0 <= i < |images| ==>
                   NamedUpTo(archive, images[i], |images[i].diffIds|) && r.value[i] == AllLayers(hash, archive, images[i])
  {
    var read: seq<seq<Layer>> := [];
    var contentSizes: map<string, nat> := map[];
    for n := 0 to |images|
      invariant |read| == n && FitTogether(archive, images, n, contentSizes)
      invariant Sourced(archive, images, n, contentSizes)
      invariant forall i :: 0 <= i < n ==> read[i] == AllLayers(hash, archive, images[i])
    {
      var layers, sizes := ReadLayers(hash, archive, images[n], contentSizes);
      if layers.Failure? {
        forall all ensures !FitTogether(archive, images, |images|, all) {
          FailureMeansNoTable(archive, images, n, contentSizes, layers.error, all);
        }
        return Failure(layers.error);
      }
      FitsNext(hash, archive, images, n, contentSizes, layers.value, sizes);
      SourcedNext(hash, archive, images, n, contentSizes, layers.value, sizes);
      contentSizes, read := sizes, read + [layers.value];
    }
    r := Success(read);
  }

  lemma LayersAreChained(hash: string -> string, archive: Archive, image: Image)
    requires NamedUpTo(archive, image, |image.diffIds|)
    ensures var layers := AllLayers(hash, archive, image); DiffIds(layers) == image.diffIds && Chained(hash, layers)
  {
    assert DiffIds(AllLayers(hash, archive, image)) == image.diffIds;
  }

  lemma FittingSizesAgree(hash: string -> string, archive: Archive, image: Image, sizes: map<string, nat>)
    requires Fits(archive, image, sizes)
    ensures SizesAgree(AllLayers(hash, archive, image), sizes)
  {
    var layers := AllLayers(hash, archive, image);
    forall layer | layer in layers ensures layer.diffId in sizes && sizes[layer.diffId] == layer.payloadBytes {
      var i :| 0 <= i < |layers| && layers[i] == layer;
      assert Lists(archive, image, sizes, i);
    }
  }

  /** Any two images of an archive that has been read are summarized as a pair, unless two of their
      chain IDs collide. */
  lemma ArchiveImagesAreConsistent(hash: string -> string, archive: Archive, images: seq<Image>,
                                   sizes: map<string, nat>, i: nat, j: nat)
    requires i < |images| && j < |images|
    requires Fits(archive, images[i], sizes) && Fits(archive, images[j], sizes)
    requires CollisionFree(hash, images[i].diffIds, images[j].diffIds)
    ensures Consistent(AllLayers(hash, archive, images[i]) + AllLayers(hash, archive, images[j]))
  {
    FittingSizesAgree(hash, archive, images[i], sizes);
    FittingSizesAgree(hash, archive, images[j], sizes);
    LayersAreChained(hash, archive, images[i]);
    LayersAreChained(hash, archive, images[j]);
    OnlyCollisionsFail(hash, AllLayers(hash, archive, images[i]), AllLayers(hash, archive, images[j]), sizes);
  }

  // ----- the checks in the terms of the names -----

  /** 64 lower-case hexadecimal digits. */
  predicate Digits(text: string) {
    |text| == 64 && forall i :: 0 <= i < 64 ==> text[i] in "0123456789abcdef"
  }

  lemma HexIsDigits(text: string)
    requires |text| == 64
    ensures IsHex(text) <==> Digits(text)
  {
    forall i | 0 <= i < 64 ensures ('0' <= text[i] <= '9' || 'a' <= text[i] <= 'f') <==> text[i] in "0123456789abcdef" {
      HexChar(text[i]);
    }
  }

  lemma HexChar(c: char)
    ensures ('0' <= c <= '9' || 'a' <= c <= 'f') <==> c in "0123456789abcdef"
  {
    var digits := "0123456789abcdef";
    if '0' <= c <= '9' { assert digits[c as int - '0' as int] == c; }
    if 'a' <= c <= 'f' { assert digits[10 + (c as int - 'a' as int)] == c; }
  }

  /** A member named after its digest holds a payload of that digest. */
  ghost predicate BlobAgrees(member: string, item: Payload) {
    forall digits :: Digits(digits) && member == "blobs/sha256/" + digits ==> item.digest == "sha256:" + digits
  }

  lemma BlobAgreesIff(member: string, item: Payload)
    ensures BlobAgrees(member, item) <==> !(NamesBlob(member) && item.digest != "sha256:" + member[13..])
  {
    if |member| == 77 && member[..13] == "blobs/sha256/" {
      HexIsDigits(member[13..]);
      assert member == member[..13] + member[13..];
      assert Digits(member[13..]) && BlobAgrees(member, item) ==> item.digest == "sha256:" + member[13..];
    }
    forall digits | Digits(digits) && member == "blobs/sha256/" + digits
      ensures NamesBlob(member) && member[13..] == digits
    {
      assert member[13..] == digits && member[..13] == "blobs/sha256/";
      HexIsDigits(digits);
    }
  }

  /** A file that may hold a layer: not the config and not the manifest. */
  predicate LayerFile(archive: Archive, config: string, member: string) {
    && member in archive.members && archive.members[member].File?
    && member != config && member != "manifest.json"
  }

  /** What looking up a layer name answers. */
  lemma FetchExact(archive: Archive, config: string, name: string)
    ensures Fetch(archive, config, name) == Failure(BadPath) <==> archive.path(name) == None
    ensures Fetch(archive, config, name) == Failure(MissingPayload)
            <==> archive.path(name).Some? && !LayerFile(archive, config, archive.path(name).value)
    ensures forall item ::
              Fetch(archive, config, name) == Success(item)
              <==> && archive.path(name).Some? && LayerFile(archive, config, archive.path(name).value)
                   && archive.members[archive.path(name).value] == File(item)
                   && BlobAgrees(archive.path(name).value, item)
    ensures Fetch(archive, config, name).Failure? ==>
              Fetch(archive, config, name).error in {BadPath, MissingPayload, WrongBlob}
  {
    if archive.path(name).Some? && LayerFile(archive, config, archive.path(name).value) {
      BlobAgreesIff(archive.path(name).value, archive.members[archive.path(name).value].payload);
    }
  }

  /** Which layer lists are read at all. */
  lemma WellFormedIff(image: Image)
    ensures WellFormed(image)
            <==> && |image.names| == |image.diffIds| <= 4096
                 && forall i :: 0 <= i < |image.diffIds| ==>
                      |image.diffIds[i]| == 71 && image.diffIds[i][..7] == "sha256:" && Digits(image.diffIds[i][7..])
  {
    forall i | 0 <= i < |image.diffIds| && |image.diffIds[i]| == 71
      ensures IsHex(image.diffIds[i][7..]) <==> Digits(image.diffIds[i][7..])
    {
      HexIsDigits(image.diffIds[i][7..]);
    }
  }

  /** Some earlier layer of the image, or the table so far, gives the diff ID another size. */
  ghost predicate OtherSize(archive: Archive, image: Image, before: map<string, nat>, i: nat, size: nat)
    requires i < |image.names| == |image.diffIds|
  {
    || (image.diffIds[i] in before && before[image.diffIds[i]] != size)
    || exists j, other :: 0 <= j < i && other != size && Carries(archive, image, j, image.diffIds[i], other)
  }

  /** The checks of one layer after the lookup, in their order. */
  lemma FaultExact(archive: Archive, image: Image, before: map<string, nat>, i: nat, item: Payload)
    requires i < |image.names| == |image.diffIds| && Fetch(archive, image.config, image.names[i]) == Success(item)
    ensures FaultAt(archive, image, before, i) == Some(WrongDigest)
            <==> !item.compressed && item.digest != image.diffIds[i]
    ensures FaultAt(archive, image, before, i) == Some(WrongSize)
            <==> (item.compressed || item.digest == image.diffIds[i]) && OtherSize(archive, image, before, i, item.size)
    ensures FaultAt(archive, image, before, i) == None
            <==> (item.compressed || item.digest == image.diffIds[i]) && !OtherSize(archive, image, before, i, item.size)
  {
    if Named(archive, image, i) {
      forall j | 0 <= j < i && image.diffIds[j] == image.diffIds[i] && Named(archive, image, j)
        ensures Carries(archive, image, j, image.diffIds[i], SizeAt(archive, image, j))
      {
      }
    }
  }
}
