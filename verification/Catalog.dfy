/** The agent's validation of an image index (agent/internal/images/images.go,
    agent/internal/system/arch.go). */
module Catalog {
  import opened Wrappers
  import opened Text
  import opened ImageIndex

  datatype Invalid =
    | MissingId | UnsafeId | MissingName | MissingArchitecture | UnknownArchitecture
    | MissingPath | RelativePath | DottedPath | UnsupportedFormat
    | MissingFirmware | UnknownFirmware | NoRawSize | RepeatedId

  function NormalizeArchitecture(raw: string): Option<string> {
    var s := TrimSpace(ToLower(raw));
    if s == "x86_64" || s == "amd64" || s == "x64" || s == "x86-64" then Some("x86_64")
    else if s == "aarch64" || s == "arm64" then Some("aarch64")
    else None
  }

  predicate IsSupportedFormat(format: string) {
    var f := ToLower(TrimSpace(format));
    f in ["raw", "img", "raw.gz", "img.gz", "raw.xz", "img.xz", "raw.zst", "img.zst"]
  }

  predicate KnownFirmware(fw: string) {
    FirmwareOk(ToLower(fw))
  }

  /** The checks made before the architecture is rewritten. */
  function CheckHead(img: Image): Option<Invalid> {
    if img.id == "" then Some(MissingId)
    else if !IdMatches(img.id) then Some(UnsafeId)
    else if img.name == "" then Some(MissingName)
    else if img.architecture == "" then Some(MissingArchitecture)
    else if NormalizeArchitecture(img.architecture).None? then Some(UnknownArchitecture)
    else None
  }

  function CheckTail(img: Image): Option<Invalid> {
    if img.path == "" then Some(MissingPath)
    else if !HasPrefix(img.path, "/") then Some(RelativePath)
    else if Contains(img.path, "..") then Some(DottedPath)
    else if !IsSupportedFormat(img.format) then Some(UnsupportedFormat)
    else if |img.firmware| == 0 then Some(MissingFirmware)
    else if exists i :: 0 <= i < |img.firmware| && !KnownFirmware(img.firmware[i]) then Some(UnknownFirmware)
    else if img.rawSize <= 0 then Some(NoRawSize)
    else None
  }

  /** The first check an entry fails. */
  function Check(img: Image): Option<Invalid> {
    if CheckHead(img).Some? then CheckHead(img) else CheckTail(img)
  }

  /** What validation leaves in the entry, whether or not a later check fails. */
  function Rewritten(img: Image): Image {
    if CheckHead(img).Some? then img
    else img.(architecture := NormalizeArchitecture(img.architecture).value)
  }

  method IsSafeId(s: string) returns (safe: bool)
    ensures safe == IdMatches(s)
  {
    if s == "" {
      return false;
    }
    for i := 0 to |s|
      invariant forall j :: 0 <= j < i ==> IdChar(s[j])
    {
      if !IdChar(s[i]) {
        return false;
      }
    }
    return true;
  }

  /** Validates the i-th entry in place. */
  method ValidateImage(images: array<Image>, i: nat) returns (err: Option<Invalid>)
    requires i < images.Length
    modifies images
    ensures err == Check(old(images[i]))
    ensures images[..] == old(images[..])[i := Rewritten(old(images[i]))]
  {
    ghost var before := images[..];
    var img := images[i];
    if img.id == "" {
      return Some(MissingId);
    }
    var safe := IsSafeId(img.id);
    if !safe {
      return Some(UnsafeId);
    }
    if img.name == "" {
      return Some(MissingName);
    }
    if img.architecture == "" {
      return Some(MissingArchitecture);
    }
    var a := NormalizeArchitecture(img.architecture);
    if a.None? {
      return Some(UnknownArchitecture);
    }
    images[i] := img.(architecture := a.value);
    assert images[..] == before[i := Rewritten(img)];
    if img.path == "" {
      return Some(MissingPath);
    }
    if !HasPrefix(img.path, "/") {
      return Some(RelativePath);
    }
    if Contains(img.path, "..") {
      return Some(DottedPath);
    }
    if !IsSupportedFormat(img.format) {
      return Some(UnsupportedFormat);
    }
    if |img.firmware| == 0 {
      return Some(MissingFirmware);
    }
    for k := 0 to |img.firmware|
      invariant forall j :: 0 <= j < k ==> KnownFirmware(img.firmware[j])
    {
      if !KnownFirmware(img.firmware[k]) {
        return Some(UnknownFirmware);
      }
    }
    if img.rawSize <= 0 {
      return Some(NoRawSize);
    }
    return None;
  }

  /** An index is acceptable when every entry passes and no id is repeated. */
  ghost predicate Acceptable(images: seq<Image>) {
    (forall i :: 0 <= i < |images| ==> Check(images[i]).None?) && DistinctIds(images)
  }

  function AllRewritten(images: seq<Image>): (r: seq<Image>)
    ensures |r| == |images| && forall i :: 0 <= i < |images| ==> r[i] == Rewritten(images[i])
  {
    seq(|images|, i requires 0 <= i < |images| => Rewritten(images[i]))
  }

  /** Accepts exactly the acceptable indexes and then leaves each entry rewritten; otherwise
      names the first entry that fails or repeats an id, and what is wrong with it. */
  method ValidateIndex(images: array<Image>) returns (err: Option<(nat, Invalid)>)
    modifies images
    ensures err.None? <==> Acceptable(old(images[..]))
    ensures err.None? ==> images[..] == AllRewritten(old(images[..]))
    ensures err.Some? ==>
              var (i, why) := err.value;
              && i < images.Length && Acceptable(old(images[..i]))
              && if Check(old(images[i])).Some? then why == Check(old(images[i])).value
                 else why == RepeatedId && HasId(old(images[..i]), old(images[i]).id)
  {
    ghost var all := images[..];
    var seen: set<string> := {};
    for i := 0 to images.Length
      invariant forall j :: 0 <= j < i ==> images[j] == Rewritten(all[j])
      invariant forall j :: i <= j < images.Length ==> images[j] == all[j]
      invariant Acceptable(all[..i])
      invariant forall id :: id in seen <==> HasId(all[..i], id)
    {
      assert images[i] == all[i];
      ghost var now := images[..];
      var bad := ValidateImage(images, i);
      assert forall j :: 0 <= j < images.Length && j != i ==> images[..][j] == now[j];
      assert all[..i + 1] == all[..i] + [all[i]];
      if bad.Some? {
        assert old(images[..i]) == all[..i];
        return Some((i, bad.value));
      }
      assert images[i].id == all[i].id;
      if images[i].id in seen {
        assert old(images[..i]) == all[..i];
        assert !DistinctIds(all) by {
          var j :| 0 <= j < |all[..i]| && all[..i][j].id == all[i].id;
          assert all[j].id == all[i].id;
        }
        return Some((i, RepeatedId));
      }
      SeenNext(all, i, seen);
      seen := seen + {images[i].id};
    }
    assert all[..images.Length] == all;
    return None;
  }

  lemma SeenNext(all: seq<Image>, i: nat, seen: set<string>)
    requires i < |all| && forall id :: id in seen <==> HasId(all[..i], id)
    ensures forall id :: id in seen + {all[i].id} <==> HasId(all[..i + 1], id)
  {
    forall id | HasId(all[..i + 1], id)
      ensures id in seen + {all[i].id}
    {
      var j :| 0 <= j < i + 1 && all[..i + 1][j].id == id;
      if j < i {
        assert all[..i][j].id == id;
      }
    }
    forall id | id in seen + {all[i].id}
      ensures HasId(all[..i + 1], id)
    {
      if id == all[i].id {
        assert all[..i + 1][i].id == id;
      } else {
        var j :| 0 <= j < i && all[..i][j].id == id;
        assert all[..i + 1][j].id == id;
      }
    }
  }

  // ---- The faults, one by one ----

  /** What each complaint is about. */
  predicate Faulty(img: Image, why: Invalid) {
    match why
    case MissingId => img.id == ""
    case UnsafeId =>
      exists i :: 0 <= i < |img.id| &&
        var c := img.id[i];
        !('a' <= c <= 'z') && !('A' <= c <= 'Z') && !('0' <= c <= '9') && c != '-' && c != '_' && c != '.'
    case MissingName => img.name == ""
    case MissingArchitecture => img.architecture == ""
    case UnknownArchitecture =>
      TrimSpace(ToLower(img.architecture)) !in ["x86_64", "amd64", "x64", "x86-64", "aarch64", "arm64"]
    case MissingPath => img.path == ""
    case RelativePath => img.path == "" || img.path[0] != '/'
    case DottedPath => exists i :: 0 <= i < |img.path| - 1 && img.path[i] == '.' && img.path[i + 1] == '.'
    case UnsupportedFormat =>
      ToLower(TrimSpace(img.format)) !in ["raw", "img", "raw.gz", "img.gz", "raw.xz", "img.xz", "raw.zst", "img.zst"]
    case MissingFirmware => img.firmware == []
    case UnknownFirmware =>
      exists i :: 0 <= i < |img.firmware| && ToLower(img.firmware[i]) != "bios" && ToLower(img.firmware[i]) != "uefi"
    case NoRawSize => img.rawSize <= 0
    case RepeatedId => false
  }

  /** The order in which they are looked for. */
  function Order(why: Invalid): nat {
    match why
    case MissingId => 0
    case UnsafeId => 1
    case MissingName => 2
    case MissingArchitecture => 3
    case UnknownArchitecture => 4
    case MissingPath => 5
    case RelativePath => 6
    case DottedPath => 7
    case UnsupportedFormat => 8
    case MissingFirmware => 9
    case UnknownFirmware => 10
    case NoRawSize => 11
    case RepeatedId => 12
  }

  lemma DotsTell(path: string)
    ensures Contains(path, "..") <==> exists i :: 0 <= i < |path| - 1 && path[i] == '.' && path[i + 1] == '.'
  {
    if i :| 0 <= i <= |path| && OccursAt(path, "..", i) {
      assert path[i..i + 2][0] == '.' && path[i..i + 2][1] == '.';
    }
    if i :| 0 <= i < |path| - 1 && path[i] == '.' && path[i + 1] == '.' {
      assert path[i..i + 2] == "..";
      assert OccursAt(path, "..", i);
    }
  }

  lemma HeadTells(img: Image)
    ensures CheckHead(img).Some? ==> Order(CheckHead(img).value) < 5 && Faulty(img, CheckHead(img).value)
    ensures forall why :: Order(why) < 5 && (CheckHead(img).Some? ==> Order(why) < Order(CheckHead(img).value)) ==> !Faulty(img, why)
  {
    if img.id != "" && !IdMatches(img.id) {
      var i :| 0 <= i < |img.id| && !IdChar(img.id[i]);
    }
  }

  lemma TailTells(img: Image)
    ensures CheckTail(img).Some? ==> 5 <= Order(CheckTail(img).value) && Faulty(img, CheckTail(img).value)
    ensures forall why :: 5 <= Order(why) && (CheckTail(img).Some? ==> Order(why) < Order(CheckTail(img).value)) ==> !Faulty(img, why)
  {
    DotsTell(img.path);
    if img.path != "" {
      assert HasPrefix(img.path, "/") <==> img.path[0] == '/';
    }
  }

  /** An entry passes exactly if it has none of the faults; otherwise the complaint is about
      the first of them. */
  lemma FirstFault(img: Image)
    ensures Check(img).None? <==> forall why :: !Faulty(img, why)
    ensures Check(img).Some? ==>
              Faulty(img, Check(img).value) && forall why :: Order(why) < Order(Check(img).value) ==> !Faulty(img, why)
  {
    HeadTells(img);
    TailTells(img);
  }

  /** An accepted entry keeps everything but its architecture, which becomes the one of the two
      names that it means. */
  lemma RewrittenTells(img: Image)
    requires Check(img).None?
    ensures var a := TrimSpace(ToLower(img.architecture));
            var architecture := if a in ["aarch64", "arm64"] then "aarch64" else "x86_64";
            Rewritten(img) == img.(architecture := architecture)
  {
  }
}
