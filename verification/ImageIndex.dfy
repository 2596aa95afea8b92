/** The server's image index and its files (server/internal/imagesvc/imagesvc.go,
    server/internal/model/model.go). */
module ImageIndex {
  import opened Wrappers
  import opened Text

  datatype Image = Image(
    id: string, name: string, os: string, version: string, architecture: string, firmware: seq<string>,
    path: string, format: string, compressedSize: int, rawSize: int,
    sha256Compressed: string, sha256Raw: string, description: string)

  datatype AddSpec = AddSpec(
    mode: string, source: string, id: string, name: string, os: string, version: string,
    architecture: string, firmware: seq<string>, description: string)

  datatype UpdateSpec = UpdateSpec(
    name: string, os: string, version: string, architecture: string, firmware: seq<string>, description: string)

  datatype SvcError = BadId | BadArchitecture | BadFirmware | NoFirmware | ReadFailed | Duplicate | NotFound | WriteFailed

  // ---- Validation ----

  predicate IdChar(c: char) {
    'a' <= c <= 'z' || 'A' <= c <= 'Z' || '0' <= c <= '9' || c == '.' || c == '_' || c == '-'
  }

  /** The pattern ^[A-Za-z0-9._-]+$. */
  predicate IdMatches(s: string) {
    s != "" && forall i :: 0 <= i < |s| ==> IdChar(s[i])
  }

  predicate FirmwareOk(fw: string) {
    fw == "bios" || fw == "uefi"
  }

  function CheckTarget(architecture: string, firmware: seq<string>): Option<SvcError> {
    if architecture != "x86_64" && architecture != "aarch64" then Some(BadArchitecture)
    else if exists i :: 0 <= i < |firmware| && !FirmwareOk(firmware[i]) then Some(BadFirmware)
    else if |firmware| == 0 then Some(NoFirmware)
    else None
  }

  /** The checks shared by StartAdd and Update, in their order. */
  function CheckSpec(id: string, architecture: string, firmware: seq<string>): Option<SvcError> {
    if !IdMatches(id) then Some(BadId) else CheckTarget(architecture, firmware)
  }

  // ---- The list operations ----

  predicate HasId(images: seq<Image>, id: string) {
    exists i :: 0 <= i < |images| && images[i].id == id
  }

  /** The entries with other ids, in order. */
  function Without(images: seq<Image>, id: string): seq<Image> {
    if images == [] then []
    else
      Without(images[..|images| - 1], id) +
      (if images[|images| - 1].id == id then [] else [images[|images| - 1]])
  }

  /** The last entry with the id. */
  function LastWith(images: seq<Image>, id: string): (r: Option<nat>)
    ensures r.Some? <==> HasId(images, id)
    ensures r.Some? ==> r.value < |images| && images[r.value].id == id
    ensures r.Some? ==> forall i :: r.value < i < |images| ==> images[i].id != id
  {
    if images == [] then None
    else if images[|images| - 1].id == id then Some(|images| - 1)
    else
      var r := LastWith(images[..|images| - 1], id);
      assert HasId(images, id) ==> HasId(images[..|images| - 1], id) by {
        if i :| 0 <= i < |images| && images[i].id == id {
          assert images[..|images| - 1][i].id == id;
        }
      }
      assert r.Some? ==> images[r.value].id == id;
      r
  }

  lemma {:induction false} WithoutShorter(images: seq<Image>, id: string)
    ensures |Without(images, id)| <= |images|
    ensures !HasId(Without(images, id), id)
    ensures forall x :: x in Without(images, id) <==> x in images && x.id != id
  {
    if images != [] {
      WithoutShorter(images[..|images| - 1], id);
      assert images == images[..|images| - 1] + [images[|images| - 1]];
    }
  }

  /** The compaction loop of Delete: `out` grows over the array it is read from. It writes
      only slots it has read, keeps exactly the entries with other ids in order, leaves the
      slots beyond them alone, and `removed` is the last slot that held the id. */
  method Compact(images: array<Image>, id: string) returns (kept: nat, removed: Option<nat>)
    modifies images
    ensures kept <= images.Length
    ensures images[..kept] == Without(old(images[..]), id)
    ensures images[kept..] == old(images[kept..])
    ensures removed == LastWith(old(images[..]), id)
  {
    ghost var all := images[..];
    kept, removed := 0, None;
    for i := 0 to images.Length
      invariant kept <= i
      invariant images[..kept] == Without(all[..i], id)
      invariant forall j :: kept <= j < images.Length ==> images[j] == all[j]
      invariant removed == LastWith(all[..i], id)
    {
      assert all[..i + 1][..i] == all[..i] && all[..i + 1][i] == all[i];
      if images[i].id == id {
        removed := Some(i);
      } else {
        ghost var before := images[..kept];
        images[kept] := images[i];
        kept := kept + 1;
        assert images[..kept] == before + [all[i]];
      }
    }
    assert all[..images.Length] == all;
    assert images[kept..] == all[kept..] == old(images[kept..]);
  }

  /** What the slot of the removed entry holds after compaction: its own content only if no
      kept entry has moved into it. */
  function SlotAfter(images: seq<Image>, id: string): Image
    requires HasId(images, id)
  {
    var r := LastWith(images, id).value;
    var kept := Without(images, id);
    if r < |kept| then kept[r] else images[r]
  }

  // ---- The last element of a path ----

  function StripSlashes(p: string): string {
    if p != "" && p[|p| - 1] == '/' then StripSlashes(p[..|p| - 1]) else p
  }

  function AfterSlash(p: string): string {
    if p == "" || p[|p| - 1] == '/' then "" else AfterSlash(p[..|p| - 1]) + [p[|p| - 1]]
  }

  /** filepath.Base. */
  function Base(p: string): string {
    if p == "" then "."
    else if StripSlashes(p) == "" then "/"
    else AfterSlash(StripSlashes(p))
  }

  // ---- The service ----

  function Updated(x: Image, spec: UpdateSpec): Image {
    x.(name := spec.name, os := spec.os, version := spec.version, architecture := spec.architecture,
       firmware := spec.firmware, description := spec.description)
  }

  /** The first entry with the id gets the new metadata. */
  function UpdateFirst(images: seq<Image>, id: string, spec: UpdateSpec): seq<Image> {
    if images == [] then []
    else if images[0].id == id then [Updated(images[0], spec)] + images[1..]
    else [images[0]] + UpdateFirst(images[1..], id, spec)
  }

  lemma {:induction false} UpdateFirstAt(images: seq<Image>, id: string, spec: UpdateSpec, p: nat)
    requires p < |images| && images[p].id == id && forall i :: 0 <= i < p ==> images[i].id != id
    ensures UpdateFirst(images, id, spec) == images[p := Updated(images[p], spec)]
  {
    if p > 0 {
      UpdateFirstAt(images[1..], id, spec, p - 1);
    }
  }

  class Service {
    var images: seq<Image>   // the content of index.json; empty if it does not exist
    var files: set<string>   // the names of the image files

    constructor ()
      ensures images == [] && files == {}
    {
      images, files := [], {};
    }

    /** Delete, as the code does it: the file unlinked is the one named in the slot that
        `removed` points to after the compaction. */
    method Delete(id: string, readOk: bool, writeOk: bool) returns (err: Option<SvcError>)
      modifies this
      ensures err == if !readOk then Some(ReadFailed)
                     else if !HasId(old(images), id) then Some(NotFound)
                     else if !writeOk then Some(WriteFailed)
                     else None
      ensures err.Some? ==> images == old(images) && files == old(files)
      ensures err.None? ==> images == Without(old(images), id)
      ensures err.None? ==> files == old(files) - {Base(SlotAfter(old(images), id).path)}
    {
      if !readOk {
        return Some(ReadFailed);
      }
      var idx := new Image[|images|](i requires 0 <= i < |images| reads this => images[i]);
      assert idx[..] == images;
      var kept, removed := Compact(idx, id);
      if removed.None? {
        return Some(NotFound);
      }
      if !writeOk {
        return Some(WriteFailed);
      }
      var base := Base(idx[removed.value].path);
      assert idx[removed.value] == SlotAfter(images, id) by {
        assert removed.value >= kept ==> idx[removed.value] == idx[kept..][removed.value - kept];
      }
      images := idx[..kept];
      files := files - {base};
      return None;
    }

    method Update(id: string, spec: UpdateSpec, readOk: bool, writeOk: bool) returns (err: Option<SvcError>)
      modifies this`images
      ensures err == if CheckSpec(id, spec.architecture, spec.firmware).Some?
                     then CheckSpec(id, spec.architecture, spec.firmware)
                     else if !readOk then Some(ReadFailed)
                     else if !HasId(old(images), id) then Some(NotFound)
                     else if !writeOk then Some(WriteFailed)
                     else None
      ensures images == if err.None? then UpdateFirst(old(images), id, spec) else old(images)
    {
      if id == "" || !IdMatches(id) {
        return Some(BadId);
      }
      err := CheckTarget(spec.architecture, spec.firmware);
      if err.Some? {
        return;
      }
      if !readOk {
        return Some(ReadFailed);
      }
      for i := 0 to |images|
        invariant images == old(images)
        invariant forall j :: 0 <= j < i ==> images[j].id != id
      {
        if images[i].id == id {
          if !writeOk {
            return Some(WriteFailed);
          }
          UpdateFirstAt(images, id, spec, i);
          images := images[i := Updated(images[i], spec)];
          return None;
        }
      }
      return Some(NotFound);
    }
  }

  // ---- What Delete unlinks ----

  ghost predicate DistinctIds(images: seq<Image>) {
    forall i, j :: 0 <= i < j < |images| ==> images[i].id != images[j].id
  }

  lemma {:induction false} WithoutDistinct(images: seq<Image>, id: string, p: nat)
    requires DistinctIds(images) && p < |images| && images[p].id == id
    ensures Without(images, id) == images[..p] + images[p + 1..]
    decreases |images|
  {
    var n := |images| - 1;
    if p == n {
      WithoutNone(images[..n], id);
      assert images[..n] + images[n + 1..] == images[..n];
    } else {
      WithoutDistinct(images[..n], id, p);
      assert images[..p] + images[p + 1..] == images[..n][..p] + images[..n][p + 1..] + [images[n]];
    }
  }

  lemma {:induction false} WithoutNone(images: seq<Image>, id: string)
    requires !HasId(images, id)
    ensures Without(images, id) == images
    decreases |images|
  {
    if images != [] {
      var n := |images| - 1;
      assert images[n].id != id;
      assert !HasId(images[..n], id) by {
        assert forall i :: 0 <= i < n ==> images[..n][i].id == images[i].id;
      }
      WithoutNone(images[..n], id);
    }
  }

  /** With distinct ids the file unlinked is the entry's own only if it is the last entry;
      otherwise it is that of the entry that followed it. */
  lemma UnlinkedFile(images: seq<Image>, id: string, p: nat)
    requires DistinctIds(images) && p < |images| && images[p].id == id
    ensures SlotAfter(images, id) == if p == |images| - 1 then images[p] else images[p + 1]
  {
    WithoutDistinct(images, id, p);
    assert LastWith(images, id).value == p;
  }

  /** Every entry has its own file and every file its entry. */
  ghost predicate Agree(images: seq<Image>, files: set<string>) {
    && (forall i, j :: 0 <= i < j < |images| ==> Base(images[i].path) != Base(images[j].path))
    && (forall i :: 0 <= i < |images| ==> Base(images[i].path) in files)
    && (forall f :: f in files ==> exists i :: 0 <= i < |images| && Base(images[i].path) == f)
  }

  lemma DeleteLastAgrees(images: seq<Image>, files: set<string>)
    requires |images| > 0 && Agree(images, files)
    ensures Agree(images[..|images| - 1], files - {Base(images[|images| - 1].path)})
  {
    var n := |images| - 1;
    var rest := files - {Base(images[n].path)};
    assert forall i :: 0 <= i < n ==> images[..n][i] == images[i];
    forall f | f in rest
      ensures exists i :: 0 <= i < |images[..n]| && Base(images[..n][i].path) == f
    {
      var i :| 0 <= i < |images| && Base(images[i].path) == f;
      assert images[..n][i] == images[i];
    }
  }

  /** So Delete, meant to remove the entry's own file, keeps entries and files in agreement
      exactly when the entry is the last one. */
  lemma {:induction false} DeleteAgreesExactly(images: seq<Image>, files: set<string>, id: string, p: nat)
    requires DistinctIds(images) && p < |images| && images[p].id == id && Agree(images, files)
    ensures Agree(Without(images, id), files - {Base(SlotAfter(images, id).path)}) <==> p == |images| - 1
  {
    UnlinkedFile(images, id, p);
    WithoutDistinct(images, id, p);
    if p == |images| - 1 {
      assert Without(images, id) == images[..p];
      DeleteLastAgrees(images, files);
    } else {
      assert Without(images, id)[p] == images[p + 1];
    }
  }

  /** A character other than letters, digits, dot, underscore and hyphen. */
  predicate HasBadChar(id: string) {
    exists i :: 0 <= i < |id| && !('a' <= id[i] <= 'z') && !('A' <= id[i] <= 'Z') && !('0' <= id[i] <= '9') && id[i] !in "._-"
  }

  /** A request passes the checks exactly if its id is not empty and made of letters, digits,
      dots, underscores and hyphens, its architecture is one of the two, and its firmware is
      given and of the two kinds; the id is looked at first, then the architecture. */
  lemma CheckSpecTells(id: string, architecture: string, firmware: seq<string>)
    ensures var badId := id == "" || HasBadChar(id);
            var badArchitecture := architecture != "x86_64" && architecture != "aarch64";
            var badFirmware := exists fw :: fw in firmware && fw != "bios" && fw != "uefi";
            CheckSpec(id, architecture, firmware) ==
              if badId then Some(BadId)
              else if badArchitecture then Some(BadArchitecture)
              else if badFirmware then Some(BadFirmware)
              else if firmware == [] then Some(NoFirmware)
              else None
  {
    if id != "" && !IdMatches(id) {
      var i :| 0 <= i < |id| && !IdChar(id[i]);
    }
    if fw :| fw in firmware && !FirmwareOk(fw) {
      var i :| 0 <= i < |firmware| && firmware[i] == fw;
    }
  }

  lemma {:induction false} AfterSlashTells(dir: string, name: string)
    requires forall i :: 0 <= i < |name| ==> name[i] != '/'
    ensures AfterSlash(dir + "/" + name) == name
    decreases |name|
  {
    var p := dir + "/" + name;
    if name != "" {
      assert p[..|p| - 1] == dir + "/" + name[..|name| - 1];
      AfterSlashTells(dir, name[..|name| - 1]);
    }
  }

  /** The last element of a path is what follows its last slash. */
  lemma BaseTells(dir: string, name: string)
    requires name != "" && forall i :: 0 <= i < |name| ==> name[i] != '/'
    ensures Base(dir + "/" + name) == name
  {
    var p := dir + "/" + name;
    assert p[|p| - 1] == name[|name| - 1] != '/';
    AfterSlashTells(dir, name);
  }
}
