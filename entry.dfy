/** The ENTRY stage: the first `LUA` chunk of the configuration names a
    glob, the first file it matches is checked and compiled, and the
    bytecode is recorded in slot 3 and appended to the image. The glob, the
    file checks and the compiler are inputs (`Tools`). */
module Entry {
  import opened Errors
  import opened Bytes
  import opened PyStr
  import opened PyJson
  import opened AddrTable
  import opened Config
  import opened HeaderV2
  import opened Assemble

  /** What one run of the compiler reports. */
  datatype Compiled = Compiled(returnCode: int, stderr: string, output: Bytes)

  /** The file system and the compiler as the stage sees them: the files a
      relative glob pattern matches next to `pack.json`, in the order the glob yields
      them; whether a path exists; whether the `st-luac` binary exists; and
      what compiling a source file produces. */
  datatype Tools = Tools(
    glob: string -> seq<string>, present: string -> bool, luacFound: bool, compile: string -> Compiled)

  // ---- _resolve_entry_path ----

  /** `chunk.get('type', '').strip() == 'LUA'`: `AttributeError` when the
      chunk is not a dict or its type is not a string. */
  function IsLuaChunk(chunk: Json): (r: Result<bool>)
    ensures r.Success? ==> chunk.JObj?
    ensures r.Failure? ==> r.error == AttributeError
  {
    var t :- Get(chunk, "type", JStr(""));
    if !t.JStr? then Failure(AttributeError) else Success(Strip(t.s) == "LUA")
  }

  /** A list comprehension with a condition that may raise: every item is
      checked, in order, and the first exception ends it. */
  function Select(items: seq<Json>, test: Json -> Result<bool>): (r: Result<seq<Json>>)
    ensures r.Failure? ==> exists c :: c in items && test(c) == Failure(r.error)
    ensures r.Success? ==> forall c :: c in r.value ==> c in items && test(c) == Success(true)
    decreases |items|
  {
    if items == [] then Success([])
    else
      var here :- test(items[0]);
      var rest :- Select(items[1..], test);
      if here then Success([items[0]] + rest) else Success(rest)
  }

  /** The chunks whose stripped type is `LUA`. */
  function LuaChunks(items: seq<Json>): (r: Result<seq<Json>>)
    ensures r.Failure? ==> r.error == AttributeError
    ensures r.Success? ==> forall c :: c in r.value ==> c.JObj? && IsLua(c)
  {
    Select(items, IsLuaChunk)
  }

  /** A chunk that passes the test. */
  predicate IsLua(c: Json) {
    IsLuaChunk(c) == Success(true)
  }

  /** The comprehension fails exactly when the condition raises on some item. */
  lemma {:induction false} SelectDefined(items: seq<Json>, test: Json -> Result<bool>)
    ensures Select(items, test).Success? <==> forall c :: c in items ==> test(c).Success?
    decreases |items|
  {
    if items != [] {
      SelectDefined(items[1..], test);
      assert items == [items[0]] + items[1..];
    }
  }

  /** One step of the comprehension: the first item, if it passes, then
      what the rest yields. */
  lemma SelectStep(items: seq<Json>, test: Json -> Result<bool>)
    requires items != [] && Select(items, test).Success?
    ensures Select(items[1..], test).Success?
    ensures Select(items, test).value
         == (if test(items[0]) == Success(true) then [items[0]] else []) + Select(items[1..], test).value
  {
  }

  /** The comprehension keeps nothing exactly when no item passes. */
  lemma {:induction false} SelectNone(items: seq<Json>, test: Json -> Result<bool>)
    requires Select(items, test).Success?
    ensures Select(items, test).value == [] <==> forall i :: 0 <= i < |items| ==> test(items[i]) != Success(true)
    decreases |items|
  {
    if items != [] {
      var rest := items[1..];
      SelectStep(items, test);
      SelectNone(rest, test);
      assert forall i :: 1 <= i < |items| ==> items[i] == rest[i - 1];
    }
  }

  /** Item `k` is the first to pass, and the condition raises on no item. */
  predicate FirstPass(items: seq<Json>, test: Json -> Result<bool>, k: int) {
    && 0 <= k < |items|
    && (forall c :: c in items ==> test(c).Success?)
    && test(items[k]) == Success(true)
    && (forall i :: 0 <= i < k ==> test(items[i]) != Success(true))
  }

  /** What the comprehension keeps first is the first item that passes. */
  lemma {:induction false} SelectFirst(items: seq<Json>, test: Json -> Result<bool>, k: int)
    requires FirstPass(items, test, k)
    ensures Select(items, test).Success? && Select(items, test).value != [] && Select(items, test).value[0] == items[k]
    decreases k
  {
    SelectDefined(items, test);
    SelectStep(items, test);
    if k > 0 {
      var rest := items[1..];
      assert FirstPass(rest, test, k - 1) by {
        assert forall i :: 0 <= i < |rest| ==> rest[i] == items[i + 1];
        assert forall c :: c in rest ==> c in items;
      }
      SelectFirst(rest, test, k - 1);
    }
  }

  /** `_resolve_entry_path`: the first file the glob of the first `LUA`
      chunk matches. */
  function EntryPath(chunks: Json, glob: string -> seq<string>): (r: Result<string>)
  {
    var items :- DictItems(chunks);
    var lua :- LuaChunks(items);
    if lua == [] then Failure(NoLuaChunk)
    else
      var pattern := Lookup(lua[0].fields, "glob", JNull);
      if !Truthy(pattern) then Failure(LuaGlobMissing)
      else if !pattern.JStr? then Failure(TypeError)
      else if Anchored(pattern.s) then Failure(NonRelativePattern)
      else
        var files := glob(pattern.s);
        if files == [] then Failure(NoFilesMatch) else Success(files[0])
  }

  /** The entry source is the first match of the glob of the first `LUA`
      chunk of a chunk list; a chunk the condition raises on, no `LUA` chunk,
      a falsy glob, a glob that is not a string, an anchored glob (which
      `Path.glob` refuses) and an empty match list each raise their own
      error. */
  lemma EntryPathOf(items: seq<Json>, glob: string -> seq<string>)
    ensures var r := EntryPath(JArr(items), glob);
      && ((exists c :: c in items && IsLuaChunk(c).Failure?) ==> r == Failure(AttributeError))
      && (((forall c :: c in items ==> IsLuaChunk(c).Success?) && (forall i :: 0 <= i < |items| ==> !IsLua(items[i])))
          ==> r == Failure(NoLuaChunk))
      && (forall k :: FirstPass(items, IsLuaChunk, k) ==>
            var pattern := Lookup(items[k].fields, "glob", JNull);
            && (!Truthy(pattern) ==> r == Failure(LuaGlobMissing))
            && (Truthy(pattern) && !pattern.JStr? ==> r == Failure(TypeError))
            && (Truthy(pattern) && pattern.JStr? && Anchored(pattern.s) ==> r == Failure(NonRelativePattern))
            && (Truthy(pattern) && pattern.JStr? && !Anchored(pattern.s) ==>
                  r == if glob(pattern.s) == [] then Failure(NoFilesMatch) else Success(glob(pattern.s)[0])))
  {
    SelectDefined(items, IsLuaChunk);
    if LuaChunks(items).Success? {
      SelectNone(items, IsLuaChunk);
    }
    forall k | FirstPass(items, IsLuaChunk, k)
      ensures LuaChunks(items).Success? && LuaChunks(items).value[0] == items[k]
    {
      SelectFirst(items, IsLuaChunk, k);
    }
  }

  // ---- _compile_lua ----

  /** The index of the last `c` in `s` (`str.rfind`), -1 when there is none. */
  function RFind(s: string, c: char): (i: int)
    ensures -1 <= i < |s|
  {
    if s == [] then -1 else if s[|s| - 1] == c then |s| - 1 else RFind(s[..|s| - 1], c)
  }

  /** `RFind` finds a `c`, and no `c` comes after it. */
  lemma {:induction false} RFindLast(s: string, c: char)
    ensures RFind(s, c) >= 0 ==> s[RFind(s, c)] == c
    ensures forall j :: RFind(s, c) < j < |s| ==> s[j] != c
  {
    if s != [] && s[|s| - 1] != c {
      RFindLast(s[..|s| - 1], c);
    }
  }

  /** The last `c` of `s + [c] + t` is the one after `s` when `t` holds no
      `c`. */
  lemma {:induction false} RFindAfter(s: string, c: char, t: string)
    requires forall i :: 0 <= i < |t| ==> t[i] != c
    ensures RFind(s + [c] + t, c) == |s|
    decreases |t|
  {
    var u := s + [c] + t;
    if t == [] {
      assert u[|u| - 1] == c;
    } else {
      assert u[..|u| - 1] == s + [c] + t[..|t| - 1];
      RFindAfter(s, c, t[..|t| - 1]);
    }
  }

  /** The last component of a path (`Path.name`): what follows its last
      `/`. */
  function Name(p: string): (n: string)
    ensures |n| <= |p|
  {
    p[RFind(p, '/') + 1..]
  }

  /** `Path.suffix`: the name from its last dot, when that dot is neither
      the first nor the last character of the name; empty otherwise. */
  function Suffix(p: string): (x: string)
  {
    var name := Name(p);
    var i := RFind(name, '.');
    if 0 < i < |name| - 1 then name[i..] else ""
  }

  /** A suffix, when there is one, is a dot and at least one more
      character, with no other dot and no `/`, at the end of the path. */
  lemma SuffixShape(p: string)
    ensures var x := Suffix(p);
      && (x != "" ==> |x| >= 2 && x[0] == '.' && (forall j :: 1 <= j < |x| ==> x[j] != '.' && x[j] != '/'))
      && (x != "" ==> |x| < |p| && x == p[|p| - |x|..])
  {
    var name := Name(p);
    RFindLast(p, '/');
    RFindLast(name, '.');
    var x := Suffix(p);
    if x != "" {
      var i := RFind(name, '.');
      assert x == name[i..];
      forall j | 1 <= j < |x| ensures x[j] != '.' && x[j] != '/' {
        assert x[j] == name[i + j] == p[RFind(p, '/') + 1 + i + j];
      }
    }
  }

  /** `Path.name` of `dir/name` is `name` when it holds no `/`. */
  lemma NameAfterSlash(dir: string, name: string)
    requires forall i :: 0 <= i < |name| ==> name[i] != '/'
    ensures Name(dir + "/" + name) == name
  {
    RFindAfter(dir, '/', name);
    var p := dir + "/" + name;
    assert p == dir + ['/'] + name;
    assert p[|dir| + 1..] == name;
  }

  /** `Suffix` from the name and the position of its last dot. */
  lemma SuffixFrom(p: string, name: string, i: int)
    requires Name(p) == name && RFind(name, '.') == i
    ensures Suffix(p) == if 0 < i < |name| - 1 then name[i..] else ""
  {
  }

  /** The name of `dir/stem.lua`. */
  lemma LuaName(dir: string, stem: string)
    requires forall i :: 0 <= i < |stem| ==> stem[i] != '/'
    ensures Name(dir + "/" + stem + ".lua") == stem + ".lua"
  {
    var name := stem + ".lua";
    assert dir + "/" + stem + ".lua" == dir + "/" + name;
    assert forall i :: 0 <= i < |name| ==> name[i] != '/' by {
      forall i | 0 <= i < |name| ensures name[i] != '/' {
        if i < |stem| { assert name[i] == stem[i]; }
      }
    }
    NameAfterSlash(dir, name);
  }

  /** The last dot of `stem.lua` is the one before `lua`. */
  lemma LuaDot(stem: string)
    ensures RFind(stem + ".lua", '.') == |stem|
  {
    assert stem + ".lua" == stem + ['.'] + "lua";
    RFindAfter(stem, '.', "lua");
  }

  /** `dir/stem.lua` has the suffix `.lua` for a non-empty `stem` without
      `/`; dots inside the stem do not matter. */
  lemma LuaSuffix(dir: string, stem: string)
    requires stem != [] && forall i :: 0 <= i < |stem| ==> stem[i] != '/'
    ensures Suffix(dir + "/" + stem + ".lua") == ".lua"
  {
    var name := stem + ".lua";
    assert name[|stem|..] == ".lua";
    LuaName(dir, stem);
    LuaDot(stem);
    SuffixFrom(dir + "/" + stem + ".lua", name, |stem|);
  }

  /** A file called `.lua` has no suffix, so the stage rejects it. */
  lemma HiddenLuaFile(dir: string)
    ensures Suffix(dir + "/.lua") == ""
  {
    var path := dir + "/.lua";
    var name := ".lua";
    assert Name(path) == name by {
      assert path == dir + "/" + name;
      assert forall i :: 0 <= i < |name| ==> name[i] != '/';
      NameAfterSlash(dir, name);
    }
    assert RFind(name, '.') == 0 by {
      assert name == [] + ['.'] + "lua";
      RFindAfter([], '.', "lua");
    }
    SuffixFrom(path, name, 0);
  }

  /** `_compile_lua`: the file must exist and end in `.lua` in any case,
      the compiler must exist, and a non-zero exit status raises with the
      compiler's messages. No slot is written before these checks. */
  function Bytecode(path: string, tools: Tools): (r: Result<Bytes>)
    ensures r.Success? <==>
      tools.present(path) && AsciiLower(Suffix(path)) == ".lua" && tools.luacFound && tools.compile(path).returnCode == 0
    ensures !tools.present(path) ==> r == Failure(LuaFileNotFound(path))
    ensures tools.present(path) && AsciiLower(Suffix(path)) != ".lua" ==> r == Failure(NotLuaFile(path))
    ensures r.Success? ==> r.value == tools.compile(path).output
  {
    if !tools.present(path) then Failure(LuaFileNotFound(path))
    else if AsciiLower(Suffix(path)) != ".lua" then Failure(NotLuaFile(path))
    else if !tools.luacFound then Failure(CompilerNotFound)
    else
      var run := tools.compile(path);
      if run.returnCode != 0 then Failure(CompileFailed(run.stderr)) else Success(run.output)
  }

  /** The suffix test ignores case: a suffix passes exactly when it is a
      dot followed by `l`, `u` and `a`, each in either case. */
  lemma LuaSuffixAnyCase(x: string)
    ensures AsciiLower(x) == ".lua" <==>
      (&& |x| == 4 && x[0] == '.'
       && (x[1] == 'l' || x[1] == 'L') && (x[2] == 'u' || x[2] == 'U') && (x[3] == 'a' || x[3] == 'A'))
  {
    var t := AsciiLower(x);
    if |x| == 4 {
      assert t[0] == '.' <==> x[0] == '.';
      assert t[1] == 'l' <==> x[1] == 'l' || x[1] == 'L';
      assert t[2] == 'u' <==> x[2] == 'u' || x[2] == 'U';
      assert t[3] == 'a' <==> x[3] == 'a' || x[3] == 'A';
      assert t == ".lua" <==> t[0] == '.' && t[1] == 'l' && t[2] == 'u' && t[3] == 'a';
    }
  }

  // ---- BuildEntry.build ----

  /** `BuildEntry.build` up to the file write, on the image read from disk:
      the entry source is resolved and compiled first, then the bytecode is
      recorded in slot 3 and appended. */
  function StageSpec(cart: Bytes, chunks: Json, hash: HashSpec, tools: Tools): (r: Result<Bytes>)
  {
    var path :- EntryPath(chunks, tools.glob);
    var code :- Bytecode(path, tools);
    AppendSpec(cart, SLOT_ENTRY, code, hash)
  }

  /** `BuildEntry.build`, step by step. */
  method Build(cart: Bytes, chunks: Json, hash: HashSpec, tools: Tools) returns (r: Result<Bytes>)
    ensures r == StageSpec(cart, chunks, hash, tools)
  {
    var path := EntryPath(chunks, tools.glob);
    if path.Failure? {
      return Failure(path.error);
    }
    var luacData := Bytecode(path.value, tools);
    if luacData.Failure? {
      return Failure(luacData.error);
    }
    r := AppendSection(cart, SLOT_ENTRY, luacData.value, hash);
  }

  /** A failure to resolve or compile the entry ends the stage with that
      failure, before any slot is written; otherwise the stage is the shared
      append step on the bytecode. */
  lemma StageOutcome(cart: Bytes, chunks: Json, hash: HashSpec, tools: Tools)
    ensures EntryPath(chunks, tools.glob).Failure? ==>
      StageSpec(cart, chunks, hash, tools) == Failure(EntryPath(chunks, tools.glob).error)
    ensures EntryPath(chunks, tools.glob).Success? ==> var path := EntryPath(chunks, tools.glob).value;
      && (Bytecode(path, tools).Failure? ==> StageSpec(cart, chunks, hash, tools) == Failure(Bytecode(path, tools).error))
      && (Bytecode(path, tools).Success? ==>
            StageSpec(cart, chunks, hash, tools) == AppendSpec(cart, SLOT_ENTRY, tools.compile(path).output, hash))
  {
  }

  /** With `image_crc32` off: slot 3 holds the bytecode's aligned offset,
      size and CRC (0 when empty), every other slot is as it was, the header
      is sealed when `header_crc32` is truthy and keeps its stored CRC
      otherwise, and the bytecode follows the old image, padded to the next
      boundary. */
  lemma StagePlain(cart: Bytes, chunks: Json, hash: HashSpec, tools: Tools, code: Bytes)
    requires |cart| >= HEADER_SIZE && !Truthy(hash.imageCrc32)
    requires EntryPath(chunks, tools.glob).Success? && Bytecode(EntryPath(chunks, tools.glob).value, tools) == Success(code)
    requires StageSpec(cart, chunks, hash, tools).Success?
    ensures var out := StageSpec(cart, chunks, hash, tools).value;
      && SectionHeader(cart, SLOT_ENTRY, code, hash).Success?
      && SectionLaidOut(cart, SectionHeader(cart, SLOT_ENTRY, code, hash).value, code, out)
      && ReadSlot(out, SLOT_ENTRY) == Slot(SectionOffset(cart), |code|, SectionCrc(code))
      && (forall j :: 0 <= j < SLOT_COUNT && j != SLOT_ENTRY ==> ReadSlot(out, j) == ReadSlot(cart, j))
      && (Truthy(hash.headerCrc32) ==> IsSealed(out[..HEADER_SIZE]))
      && (!Truthy(hash.headerCrc32) ==> out[CRC_OFFSET..HEADER_SIZE] == cart[CRC_OFFSET..HEADER_SIZE])
  {
    assert StageSpec(cart, chunks, hash, tools) == AppendSpec(cart, SLOT_ENTRY, code, hash);
    AppendSlots(cart, SLOT_ENTRY, code, hash);
    SectionHeaderShape(cart, SLOT_ENTRY, code, hash);
    var out := StageSpec(cart, chunks, hash, tools).value;
    assert out[CRC_OFFSET..HEADER_SIZE] == out[..HEADER_SIZE][CRC_OFFSET..];
  }

  /** With `image_crc32` on, the file is what `ImageRecorded` says about
      the image the stage writes with the switch off. */
  lemma StageImage(cart: Bytes, chunks: Json, hash: HashSpec, tools: Tools, code: Bytes)
    requires |cart| >= HEADER_SIZE && Truthy(hash.imageCrc32)
    requires EntryPath(chunks, tools.glob).Success? && Bytecode(EntryPath(chunks, tools.glob).value, tools) == Success(code)
    requires StageSpec(cart, chunks, hash, tools).Success?
    ensures StageSpec(cart, chunks, WithoutImageCrc(hash), tools).Success?
    ensures |StageSpec(cart, chunks, WithoutImageCrc(hash), tools).value| >= HEADER_SIZE
    ensures ImageRecorded(StageSpec(cart, chunks, WithoutImageCrc(hash), tools).value, code,
                          Padding(SectionOffset(cart), |code|), Truthy(hash.headerCrc32),
                          StageSpec(cart, chunks, hash, tools).value)
  {
    assert StageSpec(cart, chunks, hash, tools) == AppendSpec(cart, SLOT_ENTRY, code, hash);
    assert StageSpec(cart, chunks, WithoutImageCrc(hash), tools) == AppendSpec(cart, SLOT_ENTRY, code, WithoutImageCrc(hash));
    AppendImage(cart, SLOT_ENTRY, code, hash);
    AppendPlain(cart, SLOT_ENTRY, code, WithoutImageCrc(hash));
  }
}
