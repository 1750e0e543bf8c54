/** The pack configuration (`pack.json`) and `load_pack_json`: the checks it
    makes on the parsed JSON, in order, and the defaults it fills in. Every
    field keeps the JSON value the loader passes on, because later stages
    test those values for truthiness or call `str` methods on them. */
module Config {
  import opened Errors
  import opened PyJson

  datatype MetaSpec = MetaSpec(
    title: Json, titleZh: Json, publisher: Json, version: Json, cartId: Json, entry: Json,
    minFw: Json, id: Json, description: Json, category: Json, tags: Json, author: Json)

  datatype BuildSpec = BuildSpec(
    output: Json, headerSize: Json, align: Json, alignmentBytes: Json,
    deterministic: Json, failOnConflict: Json)

  datatype HashSpec = HashSpec(headerCrc32: Json, imageCrc32: Json, perChunkCrc32: Json, perFileCrc32: Json)

  datatype PackSpec = PackSpec(
    meta: MetaSpec, build: BuildSpec, icon: Json, icons: Json, hash: HashSpec,
    chunks: Json, packVersion: Json, packJsonPath: string)

  const REQUIRED_META: seq<string> := ["title", "version", "cart_id", "entry"]

  /** The first required key `field in meta` reports missing, checked in
      order; `TypeError` when `meta` does not support `in`. */
  function RequireKeys(meta: Json, keys: seq<string>): (r: Outcome)
    ensures meta.JObj? ==> (r.Pass? <==> forall k :: k in keys ==> k in meta.fields)
    ensures meta.JObj? ==> forall i :: 0 <= i < |keys| && keys[i] !in meta.fields
                                      && (forall j :: 0 <= j < i ==> keys[j] in meta.fields)
                                      ==> r == Fail(ConfigError("meta." + keys[i] + " missing"))
  {
    if keys == [] then Pass
    else match Contains(meta, keys[0])
      case Failure(e) => Fail(e)
      case Success(present) =>
        if !present then Fail(ConfigError("meta." + keys[0] + " missing"))
        else
          var rest := RequireKeys(meta, keys[1..]);
          RequireKeysTail(meta, keys, rest);
          rest
  }

  /** The first key present, the checks of the rest decide. */
  lemma RequireKeysTail(meta: Json, keys: seq<string>, rest: Outcome)
    requires keys != [] && (meta.JObj? ==> keys[0] in meta.fields)
    requires meta.JObj? ==> (rest.Pass? <==> forall k :: k in keys[1..] ==> k in meta.fields)
    requires meta.JObj? ==> forall i :: 0 <= i < |keys[1..]| && keys[1..][i] !in meta.fields
                                       && (forall j :: 0 <= j < i ==> keys[1..][j] in meta.fields)
                                       ==> rest == Fail(ConfigError("meta." + keys[1..][i] + " missing"))
    ensures meta.JObj? ==> (rest.Pass? <==> forall k :: k in keys ==> k in meta.fields)
    ensures meta.JObj? ==> forall i :: 0 <= i < |keys| && keys[i] !in meta.fields
                                      && (forall j :: 0 <= j < i ==> keys[j] in meta.fields)
                                      ==> rest == Fail(ConfigError("meta." + keys[i] + " missing"))
  {
    if meta.JObj? {
      assert keys == [keys[0]] + keys[1..];
      forall i | 0 <= i < |keys| && keys[i] !in meta.fields && (forall j :: 0 <= j < i ==> keys[j] in meta.fields)
        ensures rest == Fail(ConfigError("meta." + keys[i] + " missing"))
      {
        assert keys[1..][i - 1] == keys[i];
        forall j | 0 <= j < i - 1
          ensures keys[1..][j] in meta.fields
        {
          assert keys[1..][j] == keys[j + 1];
        }
      }
    }
  }

  function MetaOf(m: map<string, Json>): MetaSpec {
    MetaSpec(
      title := Lookup(m, "title", JNull),
      titleZh := Lookup(m, "title_zh", JStr("")),
      publisher := Lookup(m, "publisher", JStr("")),
      version := Lookup(m, "version", JNull),
      cartId := Lookup(m, "cart_id", JNull),
      entry := Lookup(m, "entry", JNull),
      minFw := Lookup(m, "min_fw", JStr("0.0.0")),
      id := Lookup(m, "id", JNull),
      description := Lookup(m, "description", JNull),
      category := Lookup(m, "category", JStr("app")),
      tags := Lookup(m, "tags", JArr([])),
      author := Lookup(m, "author", JNull))
  }

  /** The `icons` table: a lone `icon` stands in for a falsy one as `main_200`. */
  function IconsOf(d: map<string, Json>): Json {
    var icon := Lookup(d, "icon", JNull);
    var icons := Lookup(d, "icons", JNull);
    if !Truthy(icons) && Truthy(icon) then JObj(map["main_200" := icon]) else icons
  }

  /** `load_pack_json` on the parsed file at `path`. */
  function LoadPackJson(data: Json, path: string): (r: Result<PackSpec>)
    // the top level must be a dict, and the first failing check decides the error
    ensures !data.JObj? ==> r == Failure(AttributeError)
    ensures data.JObj? && Lookup(data.fields, "format", JNull) != JStr("XHGC_PACK") ==>
              r == Failure(ConfigError("format must be XHGC_PACK"))
    ensures data.JObj? && Lookup(data.fields, "format", JNull) == JStr("XHGC_PACK")
            && !EqInt(Lookup(data.fields, "pack_version", JNull), 1) ==>
              r == Failure(ConfigError("pack_version must be 1"))
    ensures data.JObj? && Lookup(data.fields, "format", JNull) == JStr("XHGC_PACK")
            && EqInt(Lookup(data.fields, "pack_version", JNull), 1)
            && !Truthy(Lookup(data.fields, "meta", JNull)) ==>
              r == Failure(ConfigError("meta missing"))
    ensures r.Success? ==>
              data.JObj? && Lookup(data.fields, "format", JNull) == JStr("XHGC_PACK")
              && EqInt(Lookup(data.fields, "pack_version", JNull), 1)
    // a loaded spec has the four required meta keys and the fixed sizes
    ensures r.Success? ==> var meta := data.fields["meta"];
              meta.JObj? && (forall k :: k in REQUIRED_META ==> k in meta.fields)
              && r.value.meta == MetaOf(meta.fields)
              && EqInt(r.value.build.headerSize, 4096) && EqInt(r.value.build.alignmentBytes, 4096)
              && r.value.build.align == r.value.build.alignmentBytes
    ensures r.Success? ==> r.value.packJsonPath == path
    ensures r.Success? ==> r.value.icon == Lookup(data.fields, "icon", JNull) && r.value.icons == IconsOf(data.fields)
  {
    match data
    case JObj(d) =>
      if Lookup(d, "format", JNull) != JStr("XHGC_PACK") then Failure(ConfigError("format must be XHGC_PACK"))
      else if !EqInt(Lookup(d, "pack_version", JNull), 1) then Failure(ConfigError("pack_version must be 1"))
      else
        var metaData := Lookup(d, "meta", JNull);
        if !Truthy(metaData) then Failure(ConfigError("meta missing"))
        else
          var checked := RequireKeys(metaData, REQUIRED_META);
          if checked.Fail? then Failure(checked.error)
          else if !metaData.JObj? then Failure(AttributeError)
          else
            var meta := MetaOf(metaData.fields);
            var buildData := Lookup(d, "build", JObj(map[]));
            if !buildData.JObj? then Failure(AttributeError)
            else
              var b := buildData.fields;
              var headerSize := Lookup(b, "header_size", JNum(4096));
              if !EqInt(headerSize, 4096) then Failure(ConfigError("build.header_size must be 4096"))
              else
                var alignmentBytes := Lookup(b, "alignment_bytes", JNum(4096));
                if !EqInt(alignmentBytes, 4096) then Failure(ConfigError("build.alignment_bytes must be 4096"))
                else
                  var build := BuildSpec(
                    output := Lookup(b, "output", JNull),
                    headerSize := headerSize,
                    align := alignmentBytes,
                    alignmentBytes := alignmentBytes,
                    deterministic := Lookup(b, "deterministic", JBool(true)),
                    failOnConflict := Lookup(b, "fail_on_conflict", JBool(true)));
                  var hashData := Lookup(d, "hash", JObj(map[]));
                  if !hashData.JObj? then Failure(AttributeError)
                  else
                    var h := hashData.fields;
                    var hash := HashSpec(
                      headerCrc32 := Lookup(h, "header_crc32", JBool(true)),
                      imageCrc32 := Lookup(h, "image_crc32", JBool(false)),
                      perChunkCrc32 := Lookup(h, "per_chunk_crc32", JBool(false)),
                      perFileCrc32 := Lookup(h, "per_file_crc32", JBool(false)));
                    var icon := Lookup(d, "icon", JNull);
                    Success(PackSpec(
                      meta := meta, build := build, icon := icon, icons := IconsOf(d), hash := hash,
                      chunks := Lookup(d, "chunks", JArr([])),
                      packVersion := Lookup(d, "pack_version", JNum(1)),
                      packJsonPath := path))
    case _ => Failure(AttributeError)
  }

  /** The meta keys a loaded spec defaults when they are absent. */
  lemma MetaDefaults(data: Json, path: string)
    requires LoadPackJson(data, path).Success?
    ensures var m := data.fields["meta"].fields; var meta := LoadPackJson(data, path).value.meta;
      && ("title_zh" !in m ==> meta.titleZh == JStr(""))
      && ("publisher" !in m ==> meta.publisher == JStr(""))
      && ("min_fw" !in m ==> meta.minFw == JStr("0.0.0"))
      && ("category" !in m ==> meta.category == JStr("app"))
      && ("tags" !in m ==> meta.tags == JArr([]))
      && ("id" !in m ==> meta.id == JNull)
  {
  }

  /** The hash switches default to header CRC on and everything else off. */
  lemma HashDefaults(data: Json, path: string)
    requires LoadPackJson(data, path).Success?
    ensures var h := LoadPackJson(data, path).value.hash;
      "hash" !in data.fields ==>
        h == HashSpec(JBool(true), JBool(false), JBool(false), JBool(false))
  {
  }

  /** A lone `icon` stands in for the missing `icons` table as `main_200`. */
  lemma IconsFallback(data: Json, path: string)
    requires LoadPackJson(data, path).Success?
    ensures var spec := LoadPackJson(data, path).value;
      && spec.icon == Lookup(data.fields, "icon", JNull)
      && (!Truthy(Lookup(data.fields, "icons", JNull)) && Truthy(spec.icon) ==> spec.icons == JObj(map["main_200" := spec.icon]))
      && (Truthy(Lookup(data.fields, "icons", JNull)) ==> spec.icons == data.fields["icons"])
  {
  }

  /** A missing required key is reported by name, the first one in the order
      title, version, cart_id, entry. */
  lemma MissingMetaKey(data: Json, path: string, i: nat)
    requires data.JObj? && Lookup(data.fields, "format", JNull) == JStr("XHGC_PACK")
    requires EqInt(Lookup(data.fields, "pack_version", JNull), 1)
    requires "meta" in data.fields && data.fields["meta"].JObj? && data.fields["meta"].fields != map[]
    requires i < |REQUIRED_META| && REQUIRED_META[i] !in data.fields["meta"].fields
    requires forall j :: 0 <= j < i ==> REQUIRED_META[j] in data.fields["meta"].fields
    ensures LoadPackJson(data, path) == Failure(ConfigError("meta." + REQUIRED_META[i] + " missing"))
  {
  }

  /** What `load_pack_json` accepts: a dict with the right format and
      version, a dict `meta` holding every required key, and `build` and
      `hash` tables (empty when absent) whose sizes are both 4096. */
  predicate Accepted(data: Json) {
    && data.JObj? && Lookup(data.fields, "format", JNull) == JStr("XHGC_PACK")
    && EqInt(Lookup(data.fields, "pack_version", JNull), 1)
    && "meta" in data.fields && data.fields["meta"].JObj? && (forall k :: k in REQUIRED_META ==> k in data.fields["meta"].fields)
    && Lookup(data.fields, "build", JObj(map[])).JObj?
    && EqInt(Lookup(Lookup(data.fields, "build", JObj(map[])).fields, "header_size", JNum(4096)), 4096)
    && EqInt(Lookup(Lookup(data.fields, "build", JObj(map[])).fields, "alignment_bytes", JNum(4096)), 4096)
    && Lookup(data.fields, "hash", JObj(map[])).JObj?
  }

  /** `load_pack_json` succeeds exactly on what it accepts. */
  lemma LoadAccepts(data: Json, path: string)
    ensures LoadPackJson(data, path).Success? <==> Accepted(data)
  {
    if Accepted(data) {
      assert REQUIRED_META[0] in data.fields["meta"].fields;
      assert Truthy(data.fields["meta"]);
    }
  }

  /** With the meta checks passed, a header size other than 4096 is reported
      first and an alignment other than 4096 next. */
  lemma BuildSizeChecks(data: Json, path: string)
    requires data.JObj? && Lookup(data.fields, "format", JNull) == JStr("XHGC_PACK")
    requires EqInt(Lookup(data.fields, "pack_version", JNull), 1)
    requires "meta" in data.fields && data.fields["meta"].JObj?
    requires forall k :: k in REQUIRED_META ==> k in data.fields["meta"].fields
    requires Lookup(data.fields, "build", JObj(map[])).JObj?
    ensures var b := Lookup(data.fields, "build", JObj(map[])).fields;
      && (!EqInt(Lookup(b, "header_size", JNum(4096)), 4096) ==>
            LoadPackJson(data, path) == Failure(ConfigError("build.header_size must be 4096")))
      && (EqInt(Lookup(b, "header_size", JNum(4096)), 4096) && !EqInt(Lookup(b, "alignment_bytes", JNum(4096)), 4096) ==>
            LoadPackJson(data, path) == Failure(ConfigError("build.alignment_bytes must be 4096")))
  {
    assert REQUIRED_META[0] in data.fields["meta"].fields;
    assert Truthy(data.fields["meta"]);
  }
}
