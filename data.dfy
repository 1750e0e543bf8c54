/** The DATA stage: the files of every `LUA` and `RES` chunk, in
    configuration order, are concatenated into the DATA section, which is
    recorded in slot 5 and appended to the image. An index entry is
    computed for every file but never written; slot 4 stays as it was. The
    file system is an input (`Files`). */
module Data {
  import opened Errors
  import opened Bytes
  import opened Checksum
  import opened PyStr
  import opened PyJson
  import opened AddrTable
  import opened Config
  import opened HeaderV2
  import opened Assemble
  import opened LexOrder

  /** The file system as the stage sees it: what `Path.glob` yields under
      the directory of `pack.json` for a relative pattern, in its order;
      `is_file`; `Path.match` with a pattern that has a component; the path of a file relative to that
      directory; and the bytes of a file. */
  datatype Files = Files(
    glob: string -> seq<string>, isFile: string -> bool, matches: (string, string) -> bool,
    relative: string -> string, read: string -> Bytes)

  /** What a contributing chunk says: its files, in processing order, and
      its two path prefixes as configured. */
  datatype Plan = Plan(files: seq<string>, stripPrefix: Json, namePrefix: Json)

  /** One file of the DATA section: its packaged path, its bytes and
      their CRC. */
  datatype Item = Item(path: string, content: Bytes, crc: nat)

  /** One of the index entries `build` computes: the packaged path, the
      absolute offset of the file in the image, its size and its CRC. */
  datatype IndexEntry = IndexEntry(path: string, offset: nat, size: nat, crc: nat)

  /** The DATA section and the index computed alongside it. */
  datatype Section = Section(content: Bytes, index: seq<IndexEntry>)

  // ---- _find_files ----

  /** A pattern in which `PurePath` finds no component: no root, and
      every `/`-separated part is empty or `.` (so `""`, `"."`, `"./."`).
      `Path.match` raises `ValueError("empty pattern")` for it. */
  predicate NoComponents(p: string) {
    && !Anchored(p)
    && (forall i :: 0 <= i < |p| ==> p[i] == '/' || p[i] == '.')
    && (forall i :: 0 <= i < |p| - 1 ==> !(p[i] == '.' && p[i + 1] == '.'))
  }

  /** `file_path.match(p)` for one exclude pattern: `TypeError` for a
      pattern that is not a string, `ValueError` for one without
      components. */
  function MatchOne(fs: Files, path: string, p: Json): (r: Result<bool>)
    ensures r.Failure? <==> !p.JStr? || NoComponents(p.s)
    ensures r.Failure? ==> r.error == if p.JStr? then EmptyPattern else TypeError
    ensures r.Success? ==> r.value == fs.matches(path, p.s)
  {
    if !p.JStr? then Failure(TypeError)
    else if NoComponents(p.s) then Failure(EmptyPattern)
    else Success(fs.matches(path, p.s))
  }

  /** The empty pattern and `.`, `./` and `./.` have no components; `/`,
      `..` and `.git` have. */
  lemma ComponentFree()
    ensures NoComponents("") && NoComponents(".") && NoComponents("./") && NoComponents("./.")
    ensures !NoComponents("/") && !NoComponents("..") && !NoComponents(".git")
  {
    assert ".."[0] == '.' && ".."[1] == '.';
    assert ".git"[1] == 'g';
  }

  /** The loop over a sequence of exclude patterns, which stops at the
      first match: the file is excluded, kept, or the first pattern tried
      before any match raises. */
  function ExcludedBy(fs: Files, path: string, pats: seq<Json>): Result<bool>
  {
    if pats == [] then Success(false)
    else
      var hit :- MatchOne(fs, path, pats[0]);
      if hit then Success(true) else ExcludedBy(fs, path, pats[1..])
  }

  /** The one-character strings `for p in s` yields for a string `s`. */
  function Chars(s: string): (c: seq<Json>)
    ensures |c| == |s| && forall i :: 0 <= i < |s| ==> c[i] == JStr([s[i]])
  {
    seq(|s|, i requires 0 <= i < |s| => JStr([s[i]]))
  }

  /** Whether `exclude_patterns` excludes `path`: a list is tried item by
      item and a string character by character; a dict is tried over its
      keys; anything else is not iterable (`TypeError`). */
  function Excluded(fs: Files, path: string, exclude: Json): (r: Result<bool>)
  {
    match exclude
    case JArr(items) => ExcludedBy(fs, path, items)
    case JStr(s) => ExcludedBy(fs, path, Chars(s))
    case JObj(m) =>
      if exists k :: k in m && !NoComponents(k) && fs.matches(path, k) then Success(true)
      else if exists k :: k in m && NoComponents(k) then Failure(EmptyPattern)
      else Success(false)
    case _ => Failure(TypeError)
  }

  /** The glob loop over `paths`: each regular file that no pattern
      excludes is kept, in order; the first exclusion test that raises is
      the loop's error. */
  function FoundIn(fs: Files, paths: seq<string>, exclude: Json): Result<seq<string>>
    decreases |paths|
  {
    if paths == [] then Success([])
    else
      var pre :- FoundIn(fs, paths[..|paths| - 1], exclude);
      var p := paths[|paths| - 1];
      if !fs.isFile(p) then Success(pre)
      else
        var out :- Excluded(fs, p, exclude);
        Success(if out then pre else pre + [p])
  }

  /** `_find_files(glob_pattern, exclude_patterns)`: `Path.glob` refuses
      an anchored pattern when the loop first asks it for a path. */
  function Found(fs: Files, pattern: string, exclude: Json): (r: Result<seq<string>>)
    ensures Anchored(pattern) ==> r == Failure(NonRelativePattern)
    ensures !Anchored(pattern) ==> r == FoundIn(fs, fs.glob(pattern), exclude)
  {
    if Anchored(pattern) then Failure(NonRelativePattern) else FoundIn(fs, fs.glob(pattern), exclude)
  }

  /** A glob result that is a regular file no pattern excludes. */
  predicate FoundFile(fs: Files, paths: seq<string>, exclude: Json, p: string) {
    p in paths && fs.isFile(p) && Excluded(fs, p, exclude) == Success(false)
  }

  /** The search keeps exactly the regular, not excluded glob results. */
  lemma {:induction false} FoundExactly(fs: Files, paths: seq<string>, exclude: Json, p: string)
    requires FoundIn(fs, paths, exclude).Success?
    ensures p in FoundIn(fs, paths, exclude).value <==> FoundFile(fs, paths, exclude, p)
    decreases |paths|
  {
    if paths != [] {
      var init, last := paths[..|paths| - 1], paths[|paths| - 1];
      assert paths == init + [last];
      assert p in paths <==> p in init || p == last;
      FoundExactly(fs, init, exclude, p);
      var pre := FoundIn(fs, init, exclude).value;
      if !fs.isFile(last) {
        assert FoundIn(fs, paths, exclude).value == pre;
      } else {
        FinalTestPasses(fs, paths, exclude);
        var out := Excluded(fs, last, exclude).value;
        assert FoundIn(fs, paths, exclude).value == if out then pre else pre + [last];
      }
    }
  }

  /** When the search succeeds no test it ran raised, the last one
      included. */
  lemma FinalTestPasses(fs: Files, paths: seq<string>, exclude: Json)
    requires paths != [] && FoundIn(fs, paths, exclude).Success? && fs.isFile(paths[|paths| - 1])
    ensures Excluded(fs, paths[|paths| - 1], exclude).Success?
  {
  }

  /** The exclusion test raises on a regular file. */
  predicate Raises(fs: Files, p: string, exclude: Json) {
    fs.isFile(p) && Excluded(fs, p, exclude).Failure?
  }

  /** The search fails exactly when the exclusion test raises on some
      regular file among the glob results. */
  lemma {:induction false} FoundFails(fs: Files, paths: seq<string>, exclude: Json)
    ensures FoundIn(fs, paths, exclude).Failure? <==> exists i :: 0 <= i < |paths| && Raises(fs, paths[i], exclude)
    decreases |paths|
  {
    if paths != [] {
      var init, last := paths[..|paths| - 1], paths[|paths| - 1];
      FoundFails(fs, init, exclude);
      if FoundIn(fs, init, exclude).Failure? {
        var i :| 0 <= i < |init| && Raises(fs, init[i], exclude);
        assert paths[i] == init[i];
      } else {
        assert FoundIn(fs, paths, exclude).Failure? <==> Raises(fs, last, exclude);
        forall i | 0 <= i < |init|
          ensures !Raises(fs, paths[i], exclude)
        {
          assert paths[i] == init[i];
        }
      }
    }
  }

  /** The error is that of the first regular file the test raises on. */
  lemma {:induction false} FoundFirstError(fs: Files, paths: seq<string>, exclude: Json, i: nat)
    requires i < |paths| && Raises(fs, paths[i], exclude)
    requires forall j :: 0 <= j < i ==> !Raises(fs, paths[j], exclude)
    ensures FoundIn(fs, paths, exclude) == Failure(Excluded(fs, paths[i], exclude).error)
    decreases |paths|
  {
    var init := paths[..|paths| - 1];
    if i == |paths| - 1 {
      FoundFails(fs, init, exclude);
      assert forall j :: 0 <= j < |init| ==> init[j] == paths[j];
    } else {
      assert forall j :: 0 <= j <= i ==> init[j] == paths[j];
      FoundFirstError(fs, init, exclude, i);
    }
  }

  /** A scalar or `None` as `exclude` raises `TypeError` at the first
      regular file, and only when there is one. */
  lemma {:induction false} NotIterable(fs: Files, paths: seq<string>, exclude: Json)
    requires exclude.JNull? || exclude.JBool? || exclude.JNum?
    ensures FoundIn(fs, paths, exclude).Failure? <==> exists i :: 0 <= i < |paths| && fs.isFile(paths[i])
    ensures FoundIn(fs, paths, exclude).Failure? ==> FoundIn(fs, paths, exclude).error == TypeError
    decreases |paths|
  {
    if paths != [] {
      var init, last := paths[..|paths| - 1], paths[|paths| - 1];
      NotIterable(fs, init, exclude);
      if exists i :: 0 <= i < |init| && fs.isFile(init[i]) {
        var i :| 0 <= i < |init| && fs.isFile(init[i]);
        assert paths[i] == init[i];
      } else {
        forall i | 0 <= i < |init|
          ensures !fs.isFile(paths[i])
        {
          assert paths[i] == init[i];
        }
      }
    }
  }

  /** With a list of strings that all have components, a file is
      excluded exactly when one of them matches it. */
  lemma {:induction false} ExcludedByStrings(fs: Files, path: string, pats: seq<Json>)
    requires forall i :: 0 <= i < |pats| ==> pats[i].JStr? && !NoComponents(pats[i].s)
    ensures ExcludedBy(fs, path, pats) == Success(exists i :: 0 <= i < |pats| && fs.matches(path, pats[i].s))
    decreases |pats|
  {
    if pats != [] {
      ExcludedByStrings(fs, path, pats[1..]);
      assert forall i :: 1 <= i < |pats| ==> pats[1..][i - 1] == pats[i];
    }
  }

  /** The index of the first `.` in `s`, or `|s|` when there is none. */
  function FirstDot(s: string): (j: nat)
    ensures j <= |s| && (j < |s| ==> s[j] == '.')
    ensures forall i :: 0 <= i < j ==> s[i] != '.'
  {
    if s == [] || s[0] == '.' then 0
    else
      var j := FirstDot(s[1..]);
      assert forall i :: 1 <= i < 1 + j ==> s[i] == s[1..][i - 1];
      1 + j
  }

  /** A string `exclude` is tried one character at a time, and the only
      one-character pattern without components is `.`: the file is
      excluded when a character before the first `.` matches it;
      otherwise reaching a `.` raises `ValueError`, and a string without
      one keeps the file. */
  lemma {:induction false} StringExclude(fs: Files, path: string, s: string)
    ensures var j := FirstDot(s);
      Excluded(fs, path, JStr(s)) ==
        if exists i :: 0 <= i < j && fs.matches(path, [s[i]]) then Success(true)
        else if j < |s| then Failure(EmptyPattern)
        else Success(false)
    decreases |s|
  {
    if s != [] {
      var c := Chars(s);
      assert c[0] == JStr([s[0]]);
      assert NoComponents([s[0]]) <==> s[0] == '.';
      if s[0] != '.' && !fs.matches(path, [s[0]]) {
        assert c[1..] == Chars(s[1..]);
        StringExclude(fs, path, s[1..]);
        var j := FirstDot(s[1..]);
        assert FirstDot(s) == 1 + j;
        assert (exists i :: 0 <= i < 1 + j && fs.matches(path, [s[i]])) <==>
               (exists i :: 0 <= i < j && fs.matches(path, [s[1..][i]])) by {
          forall i | 0 <= i < 1 + j && fs.matches(path, [s[i]])
            ensures exists k :: 0 <= k < j && fs.matches(path, [s[1..][k]])
          {
            assert i != 0 && s[1..][i - 1] == s[i];
          }
          forall k | 0 <= k < j && fs.matches(path, [s[1..][k]])
            ensures exists i :: 0 <= i < 1 + j && fs.matches(path, [s[i]])
          {
            assert s[k + 1] == s[1..][k];
          }
        }
      }
    }
  }

  /** So `"exclude": ".git"` tries the pattern `.` first and raises
      `ValueError` for every regular file. */
  lemma DotStringRaises(fs: Files, path: string)
    ensures Excluded(fs, path, JStr(".git")) == Failure(EmptyPattern)
  {
    StringExclude(fs, path, ".git");
    assert ".git"[0] == '.';
  }

  /** So `"exclude": "*.tmp"` tries the pattern `*` first: a file that
      `*` matches is excluded, whatever its name. */
  lemma StarStringExcludes(fs: Files, path: string)
    requires fs.matches(path, "*")
    ensures Excluded(fs, path, JStr("*.tmp")) == Success(true)
  {
    StringExclude(fs, path, "*.tmp");
    assert "*.tmp"[0] == '*' && ["*.tmp"[0]] == "*";
    assert FirstDot("*.tmp") >= 1;
  }

  /** The inner loop of `_find_files` over a list of patterns or the
      characters of a string, with `break` at the first match. */
  method MatchAny(fs: Files, path: string, pats: seq<Json>) returns (r: Result<bool>)
    ensures r == ExcludedBy(fs, path, pats)
  {
    var k := 0;
    while k < |pats|
      invariant 0 <= k <= |pats|
      invariant ExcludedBy(fs, path, pats) == ExcludedBy(fs, path, pats[k..])
    {
      assert pats[k..][1..] == pats[k + 1..];
      var hit := MatchOne(fs, path, pats[k]);
      if hit.Failure? {
        return Failure(hit.error);
      }
      if hit.value {
        return Success(true);
      }
      k := k + 1;
    }
    return Success(false);
  }

  /** The exclusion test of one regular file. A dict is tried over its
      keys as `Excluded` states it, without an order. */
  method TestExcluded(fs: Files, path: string, exclude: Json) returns (r: Result<bool>)
    ensures r == Excluded(fs, path, exclude)
  {
    match exclude
    case JArr(items) => r := MatchAny(fs, path, items);
    case JStr(s) => r := MatchAny(fs, path, Chars(s));
    case JObj(_) => r := Excluded(fs, path, exclude);
    case _ => r := Failure(TypeError);
  }

  /** A failure among the first glob results is the failure of the
      search. */
  lemma {:induction false} FoundInFails(fs: Files, paths: seq<string>, exclude: Json, k: nat)
    requires k <= |paths| && FoundIn(fs, paths[..k], exclude).Failure?
    ensures FoundIn(fs, paths, exclude) == FoundIn(fs, paths[..k], exclude)
    decreases |paths| - k
  {
    if k < |paths| {
      assert paths[..k + 1][..k] == paths[..k];
      FoundInFails(fs, paths, exclude, k + 1);
    } else {
      assert paths[..k] == paths;
    }
  }

  /** `_find_files`: the glob loop, the `is_file` test and the exclusion
      test, appending each kept file. */
  method FindFiles(fs: Files, pattern: string, exclude: Json) returns (r: Result<seq<string>>)
    ensures r == Found(fs, pattern, exclude)
  {
    if Anchored(pattern) {
      return Failure(NonRelativePattern);
    }
    var paths := fs.glob(pattern);
    var files: seq<string> := [];
    var i := 0;
    while i < |paths|
      invariant 0 <= i <= |paths|
      invariant FoundIn(fs, paths[..i], exclude) == Success(files)
    {
      assert paths[..i + 1][..i] == paths[..i];
      if fs.isFile(paths[i]) {
        var out := TestExcluded(fs, paths[i], exclude);
        if out.Failure? {
          FoundInFails(fs, paths, exclude, i + 1);
          return Failure(out.error);
        }
        if !out.value {
          files := files + [paths[i]];
        }
      }
      i := i + 1;
    }
    assert paths[..i] == paths;
    return Success(files);
  }

  // ---- one chunk ----

  /** The head of the chunk loop: `AttributeError` when the chunk is not a
      dict or its type not a string; nothing when the stripped type is not
      `LUA` or `RES` or the glob is falsy; otherwise the files
      `_find_files` finds, sorted when `order` is `"lex"` (the default),
      or its error. A glob that is not a string makes the file search
      raise `TypeError`. */
  function ChunkPlan(chunk: Json, fs: Files): (r: Result<Option<Plan>>)
  {
    var t :- Get(chunk, "type", JStr(""));
    if !t.JStr? then Failure(AttributeError)
    else
      var kind := Strip(t.s);
      if kind != "LUA" && kind != "RES" then Success(None)
      else
        var pattern := Lookup(chunk.fields, "glob", JStr(""));
        if !Truthy(pattern) then Success(None)
        else if !pattern.JStr? then Failure(TypeError)
        else
          var found :- Found(fs, pattern.s, Lookup(chunk.fields, "exclude", JArr([])));
          var order := Lookup(chunk.fields, "order", JStr("lex"));
          Success(Some(Plan(if order == JStr("lex") then SortLex(found) else found,
                            Lookup(chunk.fields, "strip_prefix", JStr("")),
                            Lookup(chunk.fields, "name_prefix", JStr("")))))
  }

  /** Which chunks contribute: exactly the dicts whose stripped type is
      `LUA` or `RES` and whose glob is a non-empty string; such a chunk
      fails when its glob is anchored or the file search fails; its files are
      the found ones, in ascending order under `"lex"` and as found under
      any other order. */
  lemma ChunkPlanOf(chunk: Json, fs: Files)
    requires chunk.JObj? && Lookup(chunk.fields, "type", JStr("")).JStr?
    ensures var kind := Strip(Lookup(chunk.fields, "type", JStr("")).s);
      var pattern := Lookup(chunk.fields, "glob", JStr(""));
      && (ChunkPlan(chunk, fs) == Success(None) <==> (kind != "LUA" && kind != "RES") || !Truthy(pattern))
      && (ChunkPlan(chunk, fs).Failure? <==>
            && (kind == "LUA" || kind == "RES") && Truthy(pattern)
            && (!pattern.JStr? || Found(fs, pattern.s, Lookup(chunk.fields, "exclude", JArr([]))).Failure?))
      && ((kind == "LUA" || kind == "RES") && pattern.JStr? && Anchored(pattern.s) ==>
            ChunkPlan(chunk, fs) == Failure(NonRelativePattern))
      && (ChunkPlan(chunk, fs).Success? && ChunkPlan(chunk, fs).value.Some? ==>
            var found := Found(fs, pattern.s, Lookup(chunk.fields, "exclude", JArr([]))).value;
            var files := ChunkPlan(chunk, fs).value.value.files;
            && multiset(files) == multiset(found)
            && (Lookup(chunk.fields, "order", JStr("lex")) == JStr("lex") ==> Sorted(files))
            && (Lookup(chunk.fields, "order", JStr("lex")) != JStr("lex") ==> files == found))
  {
  }

  /** A chunk with the default order yields its files in ascending
      order: the one sorted arrangement of what the search found. */
  lemma LexOrderUnique(chunk: Json, fs: Files, files: seq<string>)
    requires ChunkPlan(chunk, fs).Success? && ChunkPlan(chunk, fs).value.Some?
    requires Lookup(chunk.fields, "order", JStr("lex")) == JStr("lex")
    requires Sorted(files)
    requires Found(fs, Lookup(chunk.fields, "glob", JStr("")).s, Lookup(chunk.fields, "exclude", JArr([]))).Success?
    requires multiset(files) == multiset(Found(fs, Lookup(chunk.fields, "glob", JStr("")).s,
                                               Lookup(chunk.fields, "exclude", JArr([]))).value)
    ensures ChunkPlan(chunk, fs).value.value.files == files
  {
    var found := Found(fs, Lookup(chunk.fields, "glob", JStr("")).s, Lookup(chunk.fields, "exclude", JArr([]))).value;
    SortedUnique(SortLex(found), files);
  }

  /** The head of the chunk loop, with the file search run as a loop. */
  method PlanChunk(chunk: Json, fs: Files) returns (r: Result<Option<Plan>>)
    ensures r == ChunkPlan(chunk, fs)
  {
    var t := Get(chunk, "type", JStr(""));
    if t.Failure? {
      return Failure(t.error);
    }
    if !t.value.JStr? {
      return Failure(AttributeError);
    }
    var kind := Strip(t.value.s);
    if kind != "LUA" && kind != "RES" {
      return Success(None);
    }
    var pattern := Lookup(chunk.fields, "glob", JStr(""));
    if !Truthy(pattern) {
      return Success(None);
    }
    if !pattern.JStr? {
      return Failure(TypeError);
    }
    var found := FindFiles(fs, pattern.s, Lookup(chunk.fields, "exclude", JArr([])));
    if found.Failure? {
      return Failure(found.error);
    }
    var order := Lookup(chunk.fields, "order", JStr("lex"));
    var files := if order == JStr("lex") then SortLex(found.value) else found.value;
    return Success(Some(Plan(files, Lookup(chunk.fields, "strip_prefix", JStr("")),
                             Lookup(chunk.fields, "name_prefix", JStr("")))));
  }

  // ---- _calculate_relative_path and the packaged path ----

  /** `_calculate_relative_path` on the path relative to the `pack.json`
      directory: a truthy `strip_prefix` is removed when the path starts
      with it (`TypeError` when it is not a string), then one leading `/`
      is removed. */
  function RelativePath(rel: string, strip: Json): (r: Result<string>)
    ensures r.Failure? <==> Truthy(strip) && !strip.JStr?
    ensures r.Success? ==> |r.value| <= |rel| && r.value == rel[|rel| - |r.value|..]
  {
    var cut :- if !Truthy(strip) then Success(rel)
               else if !strip.JStr? then Failure(TypeError)
               else Success(if StartsWith(rel, strip.s) then rel[|strip.s|..] else rel);
    Success(if StartsWith(cut, "/") then cut[1..] else cut)
  }

  /** `name_prefix + rel_path`: `TypeError` unless the prefix is a string. */
  function PackPath(namePrefix: Json, rel: string): (r: Result<string>)
    ensures r.Success? <==> namePrefix.JStr?
    ensures r.Success? ==> r.value == namePrefix.s + rel
  {
    if namePrefix.JStr? then Success(namePrefix.s + rel) else Failure(TypeError)
  }

  /** A file at `strip/q` is packaged as `name + q`, whether or not the
      prefix ends in `/`, as long as `q` does not start with `/`. */
  lemma PackagedPath(strip: string, sep: string, q: string, name: string)
    requires strip != "" && (sep == "" || sep == "/") && (q == "" || q[0] != '/')
    requires sep == "" ==> strip[|strip| - 1] == '/'
    ensures RelativePath(strip + sep + q, JStr(strip)).Success?
    ensures PackPath(JStr(name), RelativePath(strip + sep + q, JStr(strip)).value) == Success(name + q)
  {
    var rel := strip + sep + q;
    assert rel[..|strip|] == strip;
    assert rel[|strip|..] == sep + q;
    if sep == "/" {
      assert (sep + q)[1..] == q;
    }
  }

  /** With no prefix to strip, a relative path that does not start with
      `/` is kept as it is. */
  lemma UnstrippedPath(rel: string)
    requires rel == "" || rel[0] != '/'
    ensures RelativePath(rel, JStr("")) == Success(rel)
  {
  }

  /** The packaged path and bytes of one file, or the error its prefixes
      raise. */
  function FileItem(f: string, plan: Plan, fs: Files): (r: Result<Item>)
    ensures r.Success? ==> r.value.content == fs.read(f) && r.value.crc == Crc32(fs.read(f))
  {
    var rel :- RelativePath(fs.relative(f), plan.stripPrefix);
    var path :- PackPath(plan.namePrefix, rel);
    var content := fs.read(f);
    Success(Item(path, content, Crc32(content)))
  }

  // ---- the processing order ----

  /** `FileItem` for the files of one chunk. */
  function ItemOf(plan: Plan, fs: Files): string -> Result<Item> {
    f => FileItem(f, plan, fs)
  }

  /** The items of a list of files, in order, or the first error. */
  function ChunkItems(files: seq<string>, itemOf: string -> Result<Item>): (r: Result<seq<Item>>)
    ensures r.Success? ==> |r.value| == |files|
  {
    if files == [] then Success([])
    else
      var pre :- ChunkItems(files[..|files| - 1], itemOf);
      var last :- itemOf(files[|files| - 1]);
      Success(pre + [last])
  }

  /** `ChunkPlan` for the chunks of one configuration. */
  function PlanOf(fs: Files): Json -> Result<Option<Plan>> {
    c => ChunkPlan(c, fs)
  }

  /** The items of a list of chunks, chunk by chunk in configuration order,
      or the first error; `planOf` is `PlanOf(fs)`. */
  function Planned(chunks: seq<Json>, planOf: Json -> Result<Option<Plan>>, fs: Files): (r: Result<seq<Item>>)
  {
    if chunks == [] then Success([])
    else
      var pre :- Planned(chunks[..|chunks| - 1], planOf, fs);
      var plan :- planOf(chunks[|chunks| - 1]);
      if plan.None? then Success(pre)
      else
        var here :- ChunkItems(plan.value.files, ItemOf(plan.value, fs));
        Success(pre + here)
  }

  /** The DATA section: the contents of the items, one after another. */
  function Content(items: seq<Item>): (c: Bytes)
  {
    if items == [] then [] else Content(items[..|items| - 1]) + items[|items| - 1].content
  }

  /** The index entry of each item, in order: an item's entry starts at
      `base` plus the sizes of the items before it. */
  function Entries(items: seq<Item>, base: nat): (e: seq<IndexEntry>)
    ensures |e| == |items|
  {
    if items == [] then []
    else
      var init := items[..|items| - 1];
      var x := items[|items| - 1];
      Entries(init, base) + [IndexEntry(x.path, base + |Content(init)|, |x.content|, x.crc)]
  }

  /** Entry `i`, said directly. */
  lemma {:induction false} EntryAt(items: seq<Item>, base: nat, i: nat)
    requires i < |items|
    ensures Entries(items, base)[i]
         == IndexEntry(items[i].path, base + |Content(items[..i])|, |items[i].content|, items[i].crc)
  {
    var init := items[..|items| - 1];
    if i < |items| - 1 {
      EntryAt(init, base, i);
      assert init[..i] == items[..i];
    } else {
      assert init == items[..i];
    }
  }

  /** What the chunk loop of `build` computes for a DATA section at
      `dataOffset`. */
  function DataSpec(chunks: Json, fs: Files, dataOffset: nat): (r: Result<Section>)
  {
    var items :- DictItems(chunks);
    var planned :- Planned(items, PlanOf(fs), fs);
    Success(Section(Content(planned), Entries(planned, dataOffset)))
  }

  // ---- properties of the layout ----

  lemma ContentAppend(items: seq<Item>, x: Item)
    ensures Content(items + [x]) == Content(items) + x.content
  {
    assert (items + [x])[..|items|] == items;
  }

  lemma {:induction false} ContentConcat(a: seq<Item>, b: seq<Item>)
    ensures Content(a + b) == Content(a) + Content(b)
    decreases |b|
  {
    if b != [] {
      var b', x := b[..|b| - 1], b[|b| - 1];
      assert Content(a + b) == Content(a + b') + x.content by {
        assert a + b == (a + b') + [x];
        ContentAppend(a + b', x);
      }
      ContentConcat(a, b');
      assert Content(b) == Content(b') + x.content;
      assert Content(a) + Content(b) == (Content(a) + Content(b')) + x.content;
    } else {
      assert a + b == a;
    }
  }

  /** Appending an item appends its entry, at the end of the content so
      far. */
  lemma EntriesAppend(items: seq<Item>, x: Item, base: nat)
    ensures Entries(items + [x], base)
         == Entries(items, base) + [IndexEntry(x.path, base + |Content(items)|, |x.content|, x.crc)]
  {
    assert (items + [x])[..|items|] == items;
  }

  /** The DATA section is the file contents in processing order, and each
      index entry locates its file: at `base` plus the sizes of the files
      before it, with the file's size and CRC. */
  lemma {:induction false} EntryLocates(items: seq<Item>, base: nat, i: nat)
    requires i < |items|
    ensures var e := Entries(items, base)[i];
      && e.path == items[i].path && e.size == |items[i].content| && e.crc == items[i].crc
      && base <= e.offset && e.offset - base + e.size <= |Content(items)|
      && Content(items)[e.offset - base .. e.offset - base + e.size] == items[i].content
  {
    var pre := items[..i];
    var post := items[i + 1..];
    EntryAt(items, base, i);
    assert items == pre + [items[i]] + post;
    ContentConcat(pre + [items[i]], post);
    ContentAppend(pre, items[i]);
  }

  /** Each entry starts where the one before it ends. */
  lemma EntryNext(items: seq<Item>, base: nat, i: nat)
    requires i + 1 < |items|
    ensures Entries(items, base)[i + 1].offset == Entries(items, base)[i].offset + Entries(items, base)[i].size
  {
    EntryAt(items, base, i);
    EntryAt(items, base, i + 1);
    assert items[..i + 1] == items[..i] + [items[i]];
    ContentAppend(items[..i], items[i]);
  }

  /** The entries tile the DATA section: the first starts at `base`, each
      next one where the previous ends, and the last ends at the end of the
      section. */
  lemma EntriesTile(items: seq<Item>, base: nat)
    ensures var e := Entries(items, base);
      && (|e| > 0 ==> e[0].offset == base)
      && (forall i :: 0 <= i < |e| - 1 ==> e[i + 1].offset == e[i].offset + e[i].size)
      && (|e| > 0 ==> e[|e| - 1].offset + e[|e| - 1].size == base + |Content(items)|)
  {
    forall i | 0 <= i < |items| - 1
      ensures Entries(items, base)[i + 1].offset == Entries(items, base)[i].offset + Entries(items, base)[i].size
    {
      EntryNext(items, base, i);
    }
    if |items| > 0 {
      assert items[..0] == [];
      EntryAt(items, base, 0);
      EntryAt(items, base, |items| - 1);
      assert items == items[..|items| - 1] + [items[|items| - 1]];
      ContentAppend(items[..|items| - 1], items[|items| - 1]);
    }
  }

  /** The items of one more chunk follow those of the chunks before. */
  lemma PlannedStep(chunks: seq<Json>, i: nat, planOf: Json -> Result<Option<Plan>>, fs: Files)
    requires i < |chunks| && Planned(chunks[..i], planOf, fs).Success?
    ensures planOf(chunks[i]).Failure? ==> Planned(chunks[..i + 1], planOf, fs) == Failure(planOf(chunks[i]).error)
    ensures planOf(chunks[i]) == Success(None) ==> Planned(chunks[..i + 1], planOf, fs) == Planned(chunks[..i], planOf, fs)
    ensures planOf(chunks[i]).Success? && planOf(chunks[i]).value.Some? ==>
      var plan := planOf(chunks[i]).value.value;
      Planned(chunks[..i + 1], planOf, fs)
        == if ChunkItems(plan.files, ItemOf(plan, fs)).Failure? then Failure(ChunkItems(plan.files, ItemOf(plan, fs)).error)
           else Success(Planned(chunks[..i], planOf, fs).value + ChunkItems(plan.files, ItemOf(plan, fs)).value)
  {
    var up := chunks[..i + 1];
    assert up[..i] == chunks[..i];
    assert up[i] == chunks[i];
  }

  /** A failure among the first chunks is the failure of all of them. */
  lemma {:induction false} PlannedFails(chunks: seq<Json>, i: nat, planOf: Json -> Result<Option<Plan>>, fs: Files)
    requires i <= |chunks| && Planned(chunks[..i], planOf, fs).Failure?
    ensures Planned(chunks, planOf, fs) == Failure(Planned(chunks[..i], planOf, fs).error)
    decreases |chunks| - i
  {
    if i < |chunks| {
      var up := chunks[..i + 1];
      assert up[..i] == chunks[..i];
      assert Planned(up, planOf, fs) == Failure(Planned(chunks[..i], planOf, fs).error);
      PlannedFails(chunks, i + 1, planOf, fs);
    } else {
      assert chunks[..i] == chunks;
    }
  }

  /** A failure among the first files of a chunk is the failure of the
      chunk. */
  lemma {:induction false} ChunkItemsFails(files: seq<string>, j: nat, itemOf: string -> Result<Item>)
    requires j <= |files| && ChunkItems(files[..j], itemOf).Failure?
    ensures ChunkItems(files, itemOf) == Failure(ChunkItems(files[..j], itemOf).error)
    decreases |files| - j
  {
    if j < |files| {
      var up := files[..j + 1];
      assert up[..j] == files[..j];
      assert ChunkItems(up, itemOf) == Failure(ChunkItems(files[..j], itemOf).error);
      ChunkItemsFails(files, j + 1, itemOf);
    } else {
      assert files[..j] == files;
    }
  }

  /** One more file of a chunk. */
  lemma ChunkItemsStep(files: seq<string>, j: nat, itemOf: string -> Result<Item>)
    requires j < |files| && ChunkItems(files[..j], itemOf).Success? && itemOf(files[j]).Success?
    ensures ChunkItems(files[..j + 1], itemOf) == Success(ChunkItems(files[..j], itemOf).value + [itemOf(files[j]).value])
  {
    assert files[..j + 1][..j] == files[..j];
  }

  /** One more item extends the section by its bytes and the index by an
      entry at the section's old end, as the file loop writes it. */
  lemma LayoutStep(all: seq<Item>, x: Item, base: nat, data: Bytes, index: seq<IndexEntry>)
    requires data == Content(all) && index == Entries(all, base)
    ensures data + x.content == Content(all + [x])
    ensures index + [IndexEntry(x.path, base + |data + x.content| - |x.content|, |x.content|, x.crc)]
         == Entries(all + [x], base)
  {
    ContentAppend(all, x);
    EntriesAppend(all, x, base);
  }

  // ---- BuildData.build ----

  /** The inner loop of `build` over the files of one contributing chunk:
      each file's bytes extend the section and its entry the index.
      `itemOf` is `ItemOf` of the chunk's plan. */
  method AppendChunk(ghost done: seq<Item>, data: Bytes, index: seq<IndexEntry>, files: seq<string>,
                     itemOf: string -> Result<Item>, dataOffset: nat)
    returns (r: Result<(Bytes, seq<IndexEntry>)>)
    requires data == Content(done) && index == Entries(done, dataOffset)
    ensures ChunkItems(files, itemOf).Failure? ==> r == Failure(ChunkItems(files, itemOf).error)
    ensures ChunkItems(files, itemOf).Success? ==>
      r == Success((Content(done + ChunkItems(files, itemOf).value), Entries(done + ChunkItems(files, itemOf).value, dataOffset)))
  {
    var data, index := data, index;
    assert files[..0] == [] && done + [] == done;
    ghost var sofar: seq<Item> := [];
    ghost var all := done;
    var j := 0;
    while j < |files|
      invariant 0 <= j <= |files|
      invariant ChunkItems(files[..j], itemOf) == Success(sofar)
      invariant all == done + sofar
      invariant data == Content(all)
      invariant index == Entries(all, dataOffset)
    {
      var item := itemOf(files[j]);
      if item.Failure? {
        assert ChunkItems(files[..j + 1], itemOf) == Failure(item.error) by {
          assert files[..j + 1][..j] == files[..j];
        }
        ChunkItemsFails(files, j + 1, itemOf);
        return Failure(item.error);
      }
      var step := item.value;
      ChunkItemsStep(files, j, itemOf);
      LayoutStep(all, step, dataOffset, data, index);
      data := data + step.content;
      index := index + [IndexEntry(step.path, dataOffset + |data| - |step.content|, |step.content|, step.crc)];
      assert done + (sofar + [step]) == all + [step];
      all := all + [step];
      sofar := sofar + [step];
      j := j + 1;
    }
    assert files[..j] == files;
    return Success((data, index));
  }

  /** The chunk loop of `build`: chunk by chunk, in configuration order,
      the files of each contributing chunk extend the section and the
      index. */
  method BuildContent(chunks: Json, fs: Files, dataOffset: nat) returns (r: Result<Section>)
    ensures r == DataSpec(chunks, fs, dataOffset)
  {
    var listed := DictItems(chunks);
    if listed.Failure? {
      return Failure(listed.error);
    }
    var items := listed.value;
    var planOf := PlanOf(fs);
    var data: Bytes := [];
    var index: seq<IndexEntry> := [];
    var i := 0;
    assert items[..0] == [];
    ghost var done: seq<Item> := [];
    while i < |items|
      invariant 0 <= i <= |items|
      invariant Planned(items[..i], planOf, fs) == Success(done)
      invariant data == Content(done)
      invariant index == Entries(done, dataOffset)
    {
      PlannedStep(items, i, planOf, fs);
      var plan := PlanChunk(items[i], fs);
      assert plan == planOf(items[i]);
      if plan.Failure? {
        assert Planned(items[..i + 1], planOf, fs) == Failure(plan.error);
        PlannedFails(items, i + 1, planOf, fs);
        return Failure(plan.error);
      }
      if plan.value.Some? {
        var p := plan.value.value;
        var extended := AppendChunk(done, data, index, p.files, ItemOf(p, fs), dataOffset);
        if extended.Failure? {
          assert Planned(items[..i + 1], planOf, fs) == Failure(extended.error);
          PlannedFails(items, i + 1, planOf, fs);
          return Failure(extended.error);
        }
        data, index := extended.value.0, extended.value.1;
        done := done + ChunkItems(p.files, ItemOf(p, fs)).value;
      }
      assert Planned(items[..i + 1], planOf, fs) == Success(done);
      i := i + 1;
    }
    assert items[..i] == items;
    assert Planned(items, planOf, fs) == Success(done);
    return Success(Section(data, index));
  }

  /** `BuildData.build` up to the file write, on the image read from disk:
      the DATA section built at the next boundary after the image, recorded
      in slot 5 and appended. */
  function StageSpec(cart: Bytes, chunks: Json, hash: HashSpec, fs: Files): (r: Result<Bytes>)
  {
    var section :- DataSpec(chunks, fs, SectionOffset(cart));
    AppendSpec(cart, SLOT_DATA, section.content, hash)
  }

  /** `BuildData.build`, step by step. */
  method Build(cart: Bytes, chunks: Json, hash: HashSpec, fs: Files) returns (r: Result<Bytes>)
    ensures r == StageSpec(cart, chunks, hash, fs)
  {
    var section := BuildContent(chunks, fs, SectionOffset(cart));
    if section.Failure? {
      return Failure(section.error);
    }
    r := AppendSection(cart, SLOT_DATA, section.value.content, hash);
  }

  /** With `image_crc32` off: slot 5 holds the section's aligned offset,
      size and CRC (0 when empty); slot 4 (the index) and every other slot
      are as they were; the header is sealed when `header_crc32` is truthy;
      and the section follows the old image, padded to the next boundary. */
  lemma StagePlain(cart: Bytes, chunks: Json, hash: HashSpec, fs: Files, section: Section)
    requires |cart| >= HEADER_SIZE && !Truthy(hash.imageCrc32)
    requires DataSpec(chunks, fs, SectionOffset(cart)) == Success(section)
    requires StageSpec(cart, chunks, hash, fs).Success?
    ensures var out := StageSpec(cart, chunks, hash, fs).value;
      && SectionHeader(cart, SLOT_DATA, section.content, hash).Success?
      && SectionLaidOut(cart, SectionHeader(cart, SLOT_DATA, section.content, hash).value, section.content, out)
      && ReadSlot(out, SLOT_DATA) == Slot(SectionOffset(cart), |section.content|, SectionCrc(section.content))
      && ReadSlot(out, SLOT_INDEX) == ReadSlot(cart, SLOT_INDEX)
      && (forall j :: 0 <= j < SLOT_COUNT && j != SLOT_DATA ==> ReadSlot(out, j) == ReadSlot(cart, j))
      && (Truthy(hash.headerCrc32) ==> IsSealed(out[..HEADER_SIZE]))
  {
    assert StageSpec(cart, chunks, hash, fs) == AppendSpec(cart, SLOT_DATA, section.content, hash);
    AppendSlots(cart, SLOT_DATA, section.content, hash);
  }

  /** With `image_crc32` on, the file is what `ImageRecorded` says about
      the image the stage writes with the switch off. */
  lemma StageImage(cart: Bytes, chunks: Json, hash: HashSpec, fs: Files, section: Section)
    requires |cart| >= HEADER_SIZE && Truthy(hash.imageCrc32)
    requires DataSpec(chunks, fs, SectionOffset(cart)) == Success(section)
    requires StageSpec(cart, chunks, hash, fs).Success?
    ensures StageSpec(cart, chunks, WithoutImageCrc(hash), fs).Success?
    ensures |StageSpec(cart, chunks, WithoutImageCrc(hash), fs).value| >= HEADER_SIZE
    ensures ImageRecorded(StageSpec(cart, chunks, WithoutImageCrc(hash), fs).value, section.content,
                          Padding(SectionOffset(cart), |section.content|), Truthy(hash.headerCrc32),
                          StageSpec(cart, chunks, hash, fs).value)
  {
    assert StageSpec(cart, chunks, hash, fs) == AppendSpec(cart, SLOT_DATA, section.content, hash);
    assert StageSpec(cart, chunks, WithoutImageCrc(hash), fs)
        == AppendSpec(cart, SLOT_DATA, section.content, WithoutImageCrc(hash));
    AppendImage(cart, SLOT_DATA, section.content, hash);
    AppendPlain(cart, SLOT_DATA, section.content, WithoutImageCrc(hash));
  }
}
