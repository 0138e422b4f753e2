/** `mapCoreFilesToImportPaths` (scripts/testUtils.js): every changed file
    under `core/src/` gives the identifier by which a test imports it from
    the published package. */
module ImportPaths {
  import opened JsStrings

  const CoreSrc := "core/src/"
  const DistPrefix := "playwright-core-utils/dist/"

  predicate IsCoreFile(file: string) {
    CoreSrc <= file
  }

  /** `` `playwright-core-utils/dist/${file.replace('core/src/', '').replace('.ts', '')}` ``:
      each `replace` removes only the first occurrence. */
  function ImportPathOf(file: string): string {
    DistPrefix + ReplaceFirst(ReplaceFirst(file, CoreSrc, ""), ".ts", "")
  }

  /** For a core file the identifier is the package prefix, then the file with
      its leading `core/src/` and its first `.ts` removed. */
  lemma ImportPathOfCoreFile(file: string)
    requires IsCoreFile(file)
    ensures ImportPathOf(file) == DistPrefix + ReplaceFirst(file[|CoreSrc|..], ".ts", "")
  {
    ReplaceFirstPrefix(file, CoreSrc, "");
    assert "" + file[|CoreSrc|..] == file[|CoreSrc|..];
  }

  /** The map after `forEach` over `files`, each core file set under
      `key(file)`: `set` on an existing key overwrites it. */
  function CoreFileMap(files: seq<string>, key: string -> string): map<string, string> {
    if |files| == 0 then map[]
    else
      var m := CoreFileMap(files[..|files| - 1], key);
      var file := files[|files| - 1];
      if IsCoreFile(file) then m[key(file) := file] else m
  }

  /** `file` is a core file set under the key `k`. */
  predicate KeyedAs(file: string, key: string -> string, k: string) {
    IsCoreFile(file) && key(file) == k
  }

  /** The map `mapCoreFilesToImportPaths` returns. */
  function ImportPathMap(files: seq<string>): map<string, string> {
    CoreFileMap(files, ImportPathOf)
  }

  /** The `forEach` loop filling a fresh `Map`. */
  method MapCoreFilesToImportPaths(changedFiles: seq<string>) returns (importPathMap: map<string, string>)
    ensures importPathMap == ImportPathMap(changedFiles)
  {
    importPathMap := map[];
    for i := 0 to |changedFiles|
      invariant importPathMap == CoreFileMap(changedFiles[..i], ImportPathOf)
    {
      var file := changedFiles[i];
      if CoreSrc <= file {
        var relativePath := ReplaceFirst(ReplaceFirst(file, CoreSrc, ""), ".ts", "");
        var importPath := DistPrefix + relativePath;
        importPathMap := importPathMap[importPath := file];
      }
      assert changedFiles[..i + 1][..i] == changedFiles[..i];
    }
    assert changedFiles[..|changedFiles|] == changedFiles;
  }

  /** A key exists exactly for the keys of the core files among `files`. */
  lemma {:induction false} CoreFileMapKeys(files: seq<string>, key: string -> string)
    ensures forall k :: k in CoreFileMap(files, key) <==>
      exists i :: 0 <= i < |files| && KeyedAs(files[i], key, k)
  {
    if |files| > 0 {
      var init := files[..|files| - 1];
      CoreFileMapKeys(init, key);
      forall k ensures k in CoreFileMap(files, key) <==>
        exists i :: 0 <= i < |files| && KeyedAs(files[i], key, k)
      {
        if exists i :: 0 <= i < |files| && KeyedAs(files[i], key, k) {
          var i :| 0 <= i < |files| && KeyedAs(files[i], key, k);
          if i < |init| {
            assert init[i] == files[i];
          }
        }
        if k in CoreFileMap(init, key) {
          var i :| 0 <= i < |init| && KeyedAs(init[i], key, k);
          assert files[i] == init[i];
        }
      }
    }
  }

  /** The value under a key is the LAST core file among `files` with that key. */
  lemma {:induction false} CoreFileMapLastWriter(files: seq<string>, key: string -> string, k: string)
    requires k in CoreFileMap(files, key)
    ensures exists i ::
              (&& 0 <= i < |files| && files[i] == CoreFileMap(files, key)[k] && KeyedAs(files[i], key, k)
               && forall j :: i < j < |files| ==> !KeyedAs(files[j], key, k))
  {
    var init := files[..|files| - 1];
    var last := |files| - 1;
    if !KeyedAs(files[last], key, k) {
      CoreFileMapLastWriter(init, key, k);
      var i :| 0 <= i < |init| && init[i] == CoreFileMap(init, key)[k] && KeyedAs(init[i], key, k)
        && forall j :: i < j < |init| ==> !KeyedAs(init[j], key, k);
      assert files[i] == init[i];
      forall j | i < j < |files| ensures !KeyedAs(files[j], key, k) {
        if j < |init| {
          assert files[j] == init[j];
        }
      }
    }
  }

  /** A key of `mapCoreFilesToImportPaths` exists exactly for the
      identifiers of the changed core files. */
  lemma ImportPathMapKeys(files: seq<string>)
    ensures forall k :: k in ImportPathMap(files) <==>
      exists i :: 0 <= i < |files| && IsCoreFile(files[i]) && ImportPathOf(files[i]) == k
  {
    CoreFileMapKeys(files, ImportPathOf);
  }

  /** The value under an identifier is the LAST changed core file with that
      identifier. */
  lemma ImportPathMapLastWriter(files: seq<string>, k: string)
    requires k in ImportPathMap(files)
    ensures exists i ::
              (&& 0 <= i < |files| && files[i] == ImportPathMap(files)[k]
               && IsCoreFile(files[i]) && ImportPathOf(files[i]) == k
               && forall j :: i < j < |files| ==> !(IsCoreFile(files[j]) && ImportPathOf(files[j]) == k))
  {
    CoreFileMapLastWriter(files, ImportPathOf, k);
  }

  /** A pattern whose first character is absent from `s[..i]` does not occur before `i`. */
  lemma NoOccurrenceBefore(s: string, p: string, i: nat)
    requires |p| > 0 && i <= |s| && p[0] !in s[..i]
    ensures forall j :: 0 <= j < i ==> !OccursAt(s, p, j)
  {
  }

  /** The example given at scripts/testUtils.js:29: `core/src/flows/loginFlow.ts` is
      imported as `playwright-core-utils/dist/flows/loginFlow`. */
  lemma LoginFlowImportPath()
    ensures ImportPathOf("core/src/flows/loginFlow.ts") == "playwright-core-utils/dist/flows/loginFlow"
  {
    var file := "core/src/flows/loginFlow.ts";
    LoginFlowIsCore();
    ImportPathOfCoreFile(file);
    LoginFlowExtension();
    LoginFlowConcat();
  }

  lemma LoginFlowConcat()
    ensures DistPrefix + "flows/loginFlow" == "playwright-core-utils/dist/flows/loginFlow"
  {
  }

  lemma LoginFlowIsCore()
    ensures IsCoreFile("core/src/flows/loginFlow.ts")
    ensures "core/src/flows/loginFlow.ts"[|CoreSrc|..] == "flows/loginFlow.ts"
  {
    assert "core/src/flows/loginFlow.ts" == CoreSrc + "flows/loginFlow.ts";
  }

  lemma LoginFlowExtension()
    ensures ReplaceFirst("flows/loginFlow.ts", ".ts", "") == "flows/loginFlow"
  {
    var rel := "flows/loginFlow.ts";
    assert rel == "flows/loginFlow" + ".ts";
    assert rel[..15] == "flows/loginFlow";
    NoOccurrenceBefore(rel, ".ts", 15);
    ReplaceFirstAt(rel, ".ts", "", 15);
  }
}
