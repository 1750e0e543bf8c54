/** The legacy loader of `config/load.py`: `load_pack_spec` checks the
    parsed `pack.json` and returns it unchanged. Reading the file is left
    out; the parsed value is the input. */
module LegacyLoad {
  import opened Errors
  import opened PyStr
  import opened PyJson
  import Config
  import LegacyHeader

  /** The meta keys that must be present, in the order they are checked. */
  const REQUIRED_META: seq<string> := ["title", "publisher", "version", "entry", "cart_id"]

  /** Every required key is a key of the dict `meta`. */
  predicate HasRequired(meta: Json)
    requires meta.JObj?
  {
    forall k :: k in REQUIRED_META ==> k in meta.fields
  }

  /** The meta part of what `_validate_required_fields` accepts: a dict
      holding every required key, whose `cart_id` is a string that
      `int(s, 16)` parses. */
  predicate MetaAccepted(meta: Json) {
    && meta.JObj? && HasRequired(meta)
    && meta.fields["cart_id"].JStr? && ParseHex(meta.fields["cart_id"].s).Some?
  }

  /** On a dict, the key checks pass exactly when every key is present. */
  lemma RequiredKeysPass(meta: Json)
    requires meta.JObj?
    ensures Config.RequireKeys(meta, REQUIRED_META).Pass? <==> HasRequired(meta)
    ensures HasRequired(meta) ==> "cart_id" in meta.fields
  {
    assert REQUIRED_META[4] == "cart_id";
  }

  /** The `cart_id` check: `.startswith` needs a string, and `int(s, 16)`
      must parse it. */
  function CheckCartId(cartId: Json): (o: Outcome)
    ensures o.Pass? <==> cartId.JStr? && ParseHex(cartId.s).Some?
    ensures cartId.JStr? && ParseHex(cartId.s).None? ==> o == Fail(ConfigError("meta.cart_id invalid: " + cartId.s))
  {
    if !cartId.JStr? then Fail(AttributeError)
    else if ParseHex(cartId.s).None? then Fail(ConfigError("meta.cart_id invalid: " + cartId.s))
    else Pass
  }

  /** The checks on a truthy `meta`: the required keys in order, then the
      `cart_id`, which `meta.get` needs to be a dict. */
  function CheckMeta(meta: Json): (o: Outcome)
    ensures o.Pass? <==> MetaAccepted(meta)
  {
    match Config.RequireKeys(meta, REQUIRED_META)
    case Fail(e) => Fail(e)
    case Pass =>
      match Get(meta, "cart_id", JNull)
      case Failure(e) => Fail(e)
      case Success(cartId) =>
        RequiredKeysPass(meta);
        CheckCartId(cartId)
  }

  /** The checks on `build`: truthy, and `'output' in build`. */
  function CheckBuild(build: Json): (o: Outcome)
    ensures o.Pass? <==> Truthy(build) && Contains(build, "output") == Success(true)
    ensures !Truthy(build) ==> o == Fail(ConfigError("build missing"))
    ensures Truthy(build) && Contains(build, "output") == Success(false) ==> o == Fail(ConfigError("build.output missing"))
  {
    if !Truthy(build) then Fail(ConfigError("build missing"))
    else match Contains(build, "output")
      case Failure(e) => Fail(e)
      case Success(present) => if !present then Fail(ConfigError("build.output missing")) else Pass
  }

  /** What `_validate_required_fields` accepts. */
  predicate Checked(data: Json) {
    && data.JObj?
    && Truthy(Lookup(data.fields, "meta", JNull)) && MetaAccepted(Lookup(data.fields, "meta", JNull))
    && Truthy(Lookup(data.fields, "build", JNull)) && Contains(Lookup(data.fields, "build", JNull), "output") == Success(true)
  }

  /** `_validate_required_fields(data)`: a truthy `meta`, the required keys,
      a `cart_id` that `int(s, 16)` parses, a truthy `build` holding
      `output`, checked in that order. A value of the wrong type fails where
      Python would. */
  function ValidateRequiredFields(data: Json): (o: Outcome)
    ensures o.Pass? <==> Checked(data)
    ensures !data.JObj? ==> o == Fail(AttributeError)
    ensures data.JObj? && !Truthy(Lookup(data.fields, "meta", JNull)) ==> o == Fail(ConfigError("meta missing"))
    ensures data.JObj? && Truthy(Lookup(data.fields, "meta", JNull)) ==>
      o == if CheckMeta(Lookup(data.fields, "meta", JNull)).Fail? then CheckMeta(Lookup(data.fields, "meta", JNull))
           else CheckBuild(Lookup(data.fields, "build", JNull))
  {
    match Get(data, "meta", JNull)
    case Failure(e) => Fail(e)
    case Success(meta) =>
      if !Truthy(meta) then Fail(ConfigError("meta missing"))
      else match CheckMeta(meta)
        case Fail(e) => Fail(e)
        case Pass => CheckBuild(Lookup(data.fields, "build", JNull))
  }

  /** The `build.header_size` check of `load_pack_spec` (4096 when absent).
      `.get` needs `build` to be a dict. */
  function CheckHeaderSize(build: Json): (o: Outcome)
    ensures o.Pass? <==> build.JObj? && EqInt(Lookup(build.fields, "header_size", JNum(4096)), 4096)
    ensures build.JObj? && !EqInt(Lookup(build.fields, "header_size", JNum(4096)), 4096) ==>
              o == Fail(ConfigError("build.header_size must be 4096"))
  {
    match Get(build, "header_size", JNum(4096))
    case Failure(e) => Fail(e)
    case Success(size) => if !EqInt(size, 4096) then Fail(ConfigError("build.header_size must be 4096")) else Pass
  }

  /** `load_pack_spec` on the parsed file: the field checks, then
      `build.header_size` (4096 when absent) must be 4096. */
  function LoadPackSpec(data: Json): (r: Result<Json>)
    ensures r.Success? ==> r.value == data
    ensures r.Success? <==>
      && Checked(data) && Lookup(data.fields, "build", JObj(map[])).JObj?
      && EqInt(Lookup(Lookup(data.fields, "build", JObj(map[])).fields, "header_size", JNum(4096)), 4096)
    ensures ValidateRequiredFields(data).Fail? ==> r == Failure(ValidateRequiredFields(data).error)
    ensures Checked(data) && Lookup(data.fields, "build", JObj(map[])).JObj?
            && !EqInt(Lookup(Lookup(data.fields, "build", JObj(map[])).fields, "header_size", JNum(4096)), 4096) ==>
              r == Failure(ConfigError("build.header_size must be 4096"))
  {
    match ValidateRequiredFields(data)
    case Fail(e) => Failure(e)
    case Pass =>
      match CheckHeaderSize(Lookup(data.fields, "build", JObj(map[])))
      case Fail(e) => Failure(e)
      case Pass => Success(data)
  }

  /** A missing required key is reported by name, the first one in the
      order title, publisher, version, entry, cart_id. */
  lemma MissingMetaKey(data: Json, i: nat)
    requires data.JObj? && "meta" in data.fields && data.fields["meta"].JObj? && data.fields["meta"].fields != map[]
    requires i < |REQUIRED_META| && REQUIRED_META[i] !in data.fields["meta"].fields
    requires forall j :: 0 <= j < i ==> REQUIRED_META[j] in data.fields["meta"].fields
    ensures LoadPackSpec(data) == Failure(ConfigError("meta." + REQUIRED_META[i] + " missing"))
  {
  }

  /** With every key present, an id `int(s, 16)` rejects is reported with
      its text. */
  lemma InvalidCartId(data: Json)
    requires data.JObj? && "meta" in data.fields && data.fields["meta"].JObj? && HasRequired(data.fields["meta"])
    requires data.fields["meta"].fields["cart_id"].JStr? && ParseHex(data.fields["meta"].fields["cart_id"].s).None?
    ensures LoadPackSpec(data) == Failure(ConfigError("meta.cart_id invalid: " + data.fields["meta"].fields["cart_id"].s))
  {
    var meta := data.fields["meta"];
    RequiredKeysPass(meta);
    assert Truthy(meta);
    assert CheckMeta(meta) == Fail(ConfigError("meta.cart_id invalid: " + meta.fields["cart_id"].s));
  }

  /** With a valid meta, a missing `build` and a `build` without `output`
      are reported in that order. */
  lemma BuildChecks(data: Json)
    requires data.JObj? && "meta" in data.fields && MetaAccepted(data.fields["meta"])
    ensures !Truthy(Lookup(data.fields, "build", JNull)) ==> LoadPackSpec(data) == Failure(ConfigError("build missing"))
    ensures "build" in data.fields && data.fields["build"].JObj? && data.fields["build"].fields != map[]
            && "output" !in data.fields["build"].fields ==>
              LoadPackSpec(data) == Failure(ConfigError("build.output missing"))
  {
    var meta := data.fields["meta"];
    RequiredKeysPass(meta);
    assert Truthy(meta);
    assert ValidateRequiredFields(data) == CheckBuild(Lookup(data.fields, "build", JNull));
  }

  /** What the loader accepts, the legacy header then packs without a
      `ValueError` from `int(s, 16)`: the id the loader checked is the id
      `pack` parses, so `pack` can only fail on a string too long for its
      field, a value of the wrong type, or a number out of range. */
  lemma LoadedCartIdParses(data: Json)
    requires LoadPackSpec(data).Success?
    ensures var m := LegacyHeader.Meta(data.fields).fields;
      && LegacyHeader.EncodeCartId(Lookup(m, "cart_id", JNull)) != Failure(InvalidLiteral)
      && (LegacyHeader.PackSpec(data).Failure? ==>
            LegacyHeader.PackSpec(data).error.FieldTooLong? || LegacyHeader.PackSpec(data).error in {StructError, AttributeError})
  {
    var meta := Lookup(data.fields, "meta", JNull);
    assert MetaAccepted(meta);
    assert LegacyHeader.Meta(data.fields) == meta;
    LegacyHeader.PackFailures(data);
  }
}
