/** The library entry points: `pack_header`, `pack_header_icon` and
    `verify_header`. Reading and writing files is left out: each entry point
    takes the parsed configuration or the bytes read, and returns the bytes
    it would write. */
module Api {
  import opened Errors
  import opened Bytes
  import opened Checksum
  import opened PyJson
  import opened Config
  import opened HeaderV2
  import opened AddrTable
  import opened Assemble
  import Icon
  import Manf
  import Entry
  import Data

  /** What `pack_header_icon` takes from its surroundings: whether Pillow
      imports, whether the icon file exists and what processing it yields,
      the Lua tools of the ENTRY stage and the files of the DATA stage. */
  datatype Env = Env(
    pillow: bool, iconFound: bool, process: Icon.Preprocess -> Result<Bytes>,
    tools: Entry.Tools, files: Data.Files)

  /** `pack_header` up to the atomic write: the bytes it writes, which are
      those of `HeaderV2.pack` and carry a valid header CRC. */
  function PackHeader(data: Json, path: string): (r: Result<Bytes>)
    ensures LoadPackJson(data, path).Failure? ==> r == Failure(LoadPackJson(data, path).error)
    ensures LoadPackJson(data, path).Success? ==> r == HeaderV2.PackSpec(LoadPackJson(data, path).value.meta)
    ensures r.Success? ==> |r.value| == HEADER_SIZE && IsSealed(r.value)
  {
    var spec :- LoadPackJson(data, path);
    HeaderV2.PackSpec(spec.meta)
  }

  /** `pack_header_icon` up to the last write: the four stages in the order
      ICON, MANF, ENTRY, DATA, each one working on the image the one before
      wrote. */
  function PackHeaderIconSpec(data: Json, path: string, env: Env): (r: Result<Bytes>)
  {
    if !env.pillow then Failure(PillowMissing)
    else
      var spec :- LoadPackJson(data, path);
      if !Truthy(spec.icon) then Failure(IconConfigMissingInPack)
      else
        var icon :- Icon.BuildSpec(spec.meta, spec.hash, spec.icon, env.iconFound, env.process);
        var manf :- Manf.StageSpec(icon, spec.meta, spec.hash);
        var entry :- Entry.StageSpec(manf, spec.chunks, spec.hash, env.tools);
        Data.StageSpec(entry, spec.chunks, spec.hash, env.files)
  }

  /** `pack_header_icon`, stage by stage. */
  method PackHeaderIcon(data: Json, path: string, env: Env) returns (r: Result<Bytes>)
    ensures r == PackHeaderIconSpec(data, path, env)
  {
    if !env.pillow {
      return Failure(PillowMissing);
    }
    var loaded := LoadPackJson(data, path);
    if loaded.Failure? {
      return Failure(loaded.error);
    }
    var spec := loaded.value;
    if !Truthy(spec.icon) {
      return Failure(IconConfigMissingInPack);
    }
    var icon := Icon.Build(spec.meta, spec.hash, spec.icon, env.iconFound, env.process);
    if icon.Failure? {
      return Failure(icon.error);
    }
    var manf := Manf.Build(icon.value, spec.meta, spec.hash);
    if manf.Failure? {
      return Failure(manf.error);
    }
    var entry := Entry.Build(manf.value, spec.chunks, spec.hash, env.tools);
    if entry.Failure? {
      return Failure(entry.error);
    }
    r := Data.Build(entry.value, spec.chunks, spec.hash, env.files);
  }

  /** Without an icon configuration `pack_header_icon` fails before any
      stage runs: the outcome depends on nothing a stage would use. */
  lemma NoIconNoStage(data: Json, path: string, env: Env, other: Env)
    requires env.pillow && other.pillow
    requires LoadPackJson(data, path).Success? && !Truthy(LoadPackJson(data, path).value.icon)
    ensures PackHeaderIconSpec(data, path, env) == Failure(IconConfigMissingInPack)
    ensures PackHeaderIconSpec(data, path, other) == PackHeaderIconSpec(data, path, env)
  {
  }

  /** The image `pack_header_icon` writes keeps the icon pixels right after
      the header through the three later stages, so it is always longer than
      a header, and `verify_header` rejects it for its length alone. */
  lemma PackedCartKeepsIcon(data: Json, path: string, env: Env)
    requires PackHeaderIconSpec(data, path, env).Success?
    ensures var spec := LoadPackJson(data, path).value;
      var out := PackHeaderIconSpec(data, path, env).value;
      && |out| >= Icon.ICON_IMAGE_SIZE
      && Icon.LoadIcon(spec.icon, env.iconFound, env.process).Success?
      && out[HEADER_SIZE..Icon.ICON_END] == Icon.LoadIcon(spec.icon, env.iconFound, env.process).value
      && !IsSealed(out)
  {
    var spec := LoadPackJson(data, path).value;
    var icon := Icon.BuildSpec(spec.meta, spec.hash, spec.icon, env.iconFound, env.process).value;
    Icon.IconLayout(spec.meta, spec.hash, spec.icon, env.iconFound, env.process);
    var pixels := Icon.LoadIcon(spec.icon, env.iconFound, env.process).value;
    var content := Manf.ContentOf(spec.meta).value;
    AppendExtends(icon, SLOT_MANF, content, spec.hash);
    var manf := Manf.StageSpec(icon, spec.meta, spec.hash).value;
    KeepsPrefix(icon, manf, pixels);
    var path' := Entry.EntryPath(spec.chunks, env.tools.glob).value;
    var code := Entry.Bytecode(path', env.tools).value;
    AppendExtends(manf, SLOT_ENTRY, code, spec.hash);
    var entry := Entry.StageSpec(manf, spec.chunks, spec.hash, env.tools).value;
    KeepsPrefix(manf, entry, pixels);
    var section := Data.DataSpec(spec.chunks, env.files, SectionOffset(entry)).value;
    AppendExtends(entry, SLOT_DATA, section.content, spec.hash);
    var out := Data.StageSpec(entry, spec.chunks, spec.hash, env.files).value;
    KeepsPrefix(entry, out, pixels);
  }

  /** Bytes `HEADER_SIZE..ICON_END` survive a stage that keeps everything
      after the header. */
  lemma KeepsPrefix(before: Bytes, after: Bytes, pixels: Bytes)
    requires |before| >= Icon.ICON_END && |after| >= |before|
    requires after[HEADER_SIZE..|before|] == before[HEADER_SIZE..]
    requires before[HEADER_SIZE..Icon.ICON_END] == pixels
    ensures after[HEADER_SIZE..Icon.ICON_END] == pixels
  {
    assert after[HEADER_SIZE..Icon.ICON_END] == after[HEADER_SIZE..|before|][..Icon.ICON_END - HEADER_SIZE];
    assert before[HEADER_SIZE..Icon.ICON_END] == before[HEADER_SIZE..][..Icon.ICON_END - HEADER_SIZE];
  }

  /** `verify_header` on the bytes read: false for any length but 4096,
      otherwise whether the u32 at 4092 equals the CRC of a copy whose bytes
      4092..4095 are zeroed. */
  method VerifyHeader(headerData: Bytes) returns (ok: bool)
    ensures ok <==> IsSealed(headerData)
  {
    if |headerData| != HEADER_SIZE {
      return false;
    }
    var stored := FromLE(headerData[CRC_OFFSET..CRC_OFFSET + 4]);
    var copy := new byte[|headerData|](k requires 0 <= k < |headerData| => headerData[k]);
    copy[CRC_OFFSET], copy[CRC_OFFSET + 1], copy[CRC_OFFSET + 2], copy[CRC_OFFSET + 3] := 0, 0, 0, 0;
    assert copy[..] == ZeroCrc(headerData) by {
      assert forall k :: 0 <= k < HEADER_SIZE ==> copy[..][k] == ZeroCrc(headerData)[k];
    }
    var calculated := Crc32(copy[..]);
    assert headerData[CRC_OFFSET..CRC_OFFSET + 4] == headerData[CRC_OFFSET..];
    return stored == calculated;
  }
}
