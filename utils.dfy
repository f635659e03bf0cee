/**
 * The helpers of utils.py that the plugin's file handling rests on: the name of a generated
 * export file, the path helpers that read a name back, the completeness check of the
 * shapefiles in a folder, the rows of a configuration CSV, and the plugin version line.
 */
module Utils {
  import opened Wrappers
  import opened Strings

  // ----------------------------------------------------------------------------------------
  // update_file_name
  // ----------------------------------------------------------------------------------------

  const FlagError := "At least one argument (aep/eu/epl) should be True."

  /** The DEPCO code followed by the tags of the first two networks asked for. */
  function Prefix(depco: string, aep: bool, eu: bool): string {
    var name := if aep then depco + "_AEP" else depco;
    if eu then name + "_EU" else name
  }

  /** The name `update_file_name` has built when it adds the source number, line 88
      included: the EPL tag is added with `+=` to an f-string that already holds the name,
      so the name so far appears twice. */
  function NameBeforeNumber(depco: string, aep: bool, eu: bool, epl: bool): string {
    var name := Prefix(depco, aep, eu);
    if epl then name + (name + "_EPL") else name
  }

  /** The name `update_file_name` returns. */
  function GeneratedName(depco: string, numSource: string, aep: bool, eu: bool, epl: bool): string {
    Upper(NameBeforeNumber(depco, aep, eu, epl) + "_" + numSource)
  }

  /** The name line 88 evidently means to build: each tag once, then the source number. */
  function IntendedName(depco: string, numSource: string, aep: bool, eu: bool, epl: bool): string {
    var name := Prefix(depco, aep, eu);
    Upper((if epl then name + "_EPL" else name) + "_" + numSource)
  }

  /** The tags a name should carry, in the order the flags are tested. */
  function Tags(aep: bool, eu: bool, epl: bool): seq<string> {
    (if aep then ["AEP"] else []) + (if eu then ["EU"] else []) + (if epl then ["EPL"] else [])
  }

  /** update_file_name: refuses a call with no network flag, otherwise builds the name step by
      step as the source does. */
  method UpdateFileName(depco: string, numSource: string, aep: bool, eu: bool, epl: bool)
    returns (r: Result<string, string>)
    ensures r.Failure? <==> !aep && !eu && !epl
    ensures r.Failure? ==> r.error == FlagError
    ensures r.Success? ==> r.value == GeneratedName(depco, numSource, aep, eu, epl)
  {
    if !aep && !eu && !epl {
      return Failure(FlagError);
    }
    var name := depco;
    if aep {
      name := name + "_AEP";
    }
    if eu {
      name := name + "_EU";
    }
    if epl {
      name := name + (name + "_EPL");
    }
    name := name + "_" + numSource;
    return Success(Upper(name));
  }

  /** Upper-casing a name that starts with `start`, followed by `_` and a number. */
  lemma NumberedNameShape(name: string, start: string, numSource: string)
    requires StartsWith(name, start)
    ensures var r := Upper(name + "_" + numSource);
      NoLowerCase(r) && StartsWith(r, Upper(start)) && EndsWith(r, "_" + Upper(numSource))
  {
    var full := name + "_" + numSource;
    assert StartsWith(full, start) && EndsWith(full, "_" + numSource) by {
      StartsWithAppend(name, "_", start);
      StartsWithAppend(name + "_", numSource, start);
      EndsWithSeparated(name, "_", numSource);
    }
    UpperAffixes(full, start, "_" + numSource);
    UnderscoreUpper(numSource);
    UpperAt(full);
  }

  lemma UnderscoreUpper(numSource: string)
    ensures Upper("_" + numSource) == "_" + Upper(numSource)
  {
    UpperConcat("_", numSource);
    UpperUnchanged("_");
  }

  /** A generated name is upper case, starts with the DEPCO code and ends with `_` and the
      source number. */
  lemma GeneratedNameShape(depco: string, numSource: string, aep: bool, eu: bool, epl: bool)
    ensures var r := GeneratedName(depco, numSource, aep, eu, epl);
      && NoLowerCase(r)
      && StartsWith(r, Upper(depco))
      && EndsWith(r, "_" + Upper(numSource))
  {
    var p := Prefix(depco, aep, eu);
    var a := if aep then depco + "_AEP" else depco;
    assert StartsWith(depco, depco);
    StartsWithAppend(depco, "_AEP", depco);
    StartsWithAppend(a, "_EU", depco);
    StartsWithAppend(p, p + "_EPL", depco);
    NumberedNameShape(NameBeforeNumber(depco, aep, eu, epl), depco, numSource);
  }

  /** Without EPL the name is the intended one; with EPL it is the intended one with the
      upper-cased prefix written in front a second time. */
  lemma EplRepeatsPrefix(depco: string, numSource: string, aep: bool, eu: bool)
    ensures GeneratedName(depco, numSource, aep, eu, false) == IntendedName(depco, numSource, aep, eu, false)
    ensures GeneratedName(depco, numSource, aep, eu, true) ==
      Upper(Prefix(depco, aep, eu)) + IntendedName(depco, numSource, aep, eu, true)
  {
    var p := Prefix(depco, aep, eu);
    assert p + (p + "_EPL") + "_" + numSource == p + (p + "_EPL" + "_" + numSource);
    UpperConcat(p, p + "_EPL" + "_" + numSource);
  }

  /** The case that shows line 88 at work: DEPCO 29019, source 001, AEP and EPL. */
  lemma EplDuplicatesName()
    ensures GeneratedName("29019", "001", true, false, true) == "29019_AEP29019_AEP_EPL_001"
  {
    NameBeforeExample();
    UpperUnchanged("29019_AEP29019_AEP_EPL_001");
  }

  lemma NameBeforeExample()
    ensures NameBeforeNumber("29019", true, false, true) + "_" + "001" == "29019_AEP29019_AEP_EPL_001"
  {
    assert Prefix("29019", true, false) == "29019_AEP";
  }

  /** The same call with line 88 corrected. */
  lemma IntendedExample()
    ensures IntendedName("29019", "001", true, false, true) == "29019_AEP_EPL_001"
  {
    assert Prefix("29019", true, false) + "_EPL" + "_" + "001" == "29019_AEP_EPL_001";
    UpperUnchanged("29019_AEP_EPL_001");
  }

  /** Gluing pieces one more piece at a time. */
  lemma {:induction false} JoinSnoc(parts: seq<string>, y: string, c: char)
    requires |parts| >= 1
    ensures Join(parts + [y], c) == Join(parts, c) + [c] + y
  {
    if |parts| > 1 {
      JoinSnoc(parts[1..], y, c);
      assert (parts + [y])[1..] == parts[1..] + [y];
    }
  }

  /** Adding a tag to a name adds it as one more `_`-separated piece of the upper-cased name. */
  lemma AddTag(parts: seq<string>, name: string, tag: string)
    requires |parts| >= 1 && Join(parts, '_') == Upper(name) && NoLowerCase(tag)
    ensures Join(parts + [tag], '_') == Upper(name + ("_" + tag))
  {
    JoinSnoc(parts, tag, '_');
    UpperConcat(name, "_" + tag);
    UpperConcat("_", tag);
    UpperUnchanged(tag);
  }

  /** The DEPCO code and the tags, upper-cased and glued with `_`, spell the intended name
      before its source number. */
  lemma TagsJoin(depco: string, aep: bool, eu: bool, epl: bool)
    ensures var p := Prefix(depco, aep, eu);
      Join([Upper(depco)] + Tags(aep, eu, epl), '_') == Upper(if epl then p + "_EPL" else p)
  {
    var s0 := [Upper(depco)];
    var s1 := if aep then s0 + ["AEP"] else s0;
    var s2 := if eu then s1 + ["EU"] else s1;
    var s3 := if epl then s2 + ["EPL"] else s2;
    var n1 := if aep then depco + "_AEP" else depco;
    var n2 := if eu then n1 + "_EU" else n1;
    var n3 := if epl then n2 + "_EPL" else n2;
    assert Join(s0, '_') == Upper(depco);
    if aep {
      AddTag(s0, depco, "AEP");
      assert "_" + "AEP" == "_AEP";
    }
    assert Join(s1, '_') == Upper(n1);
    if eu {
      AddTag(s1, n1, "EU");
      assert "_" + "EU" == "_EU";
    }
    assert Join(s2, '_') == Upper(n2);
    if epl {
      AddTag(s2, n2, "EPL");
      assert "_" + "EPL" == "_EPL";
    }
    TagsInOrder(Upper(depco), aep, eu, epl);
  }

  /** The tags, one flag at a time. */
  lemma TagsInOrder(first: string, aep: bool, eu: bool, epl: bool)
    ensures var s1 := if aep then [first] + ["AEP"] else [first];
      var s2 := if eu then s1 + ["EU"] else s1;
      (if epl then s2 + ["EPL"] else s2) == [first] + Tags(aep, eu, epl)
  {
  }

  /** Adding the source number adds it as the last piece. */
  lemma AddNumber(parts: seq<string>, name: string, numSource: string)
    requires |parts| >= 1 && Join(parts, '_') == Upper(name)
    ensures Join(parts + [Upper(numSource)], '_') == Upper(name + "_" + numSource)
  {
    var n := Upper(numSource);
    JoinSnoc(parts, n, '_');
    UpperConcat(name, "_" + numSource);
    UpperConcat("_", numSource);
    UpperUnchanged("_");
    AppendAssoc(name, "_", numSource);
    AppendAssoc(Upper(name), "_", n);
  }

  /** The intended name is the DEPCO code, the tags and the source number, upper-cased and
      glued with `_`. */
  lemma IntendedNameJoins(depco: string, numSource: string, aep: bool, eu: bool, epl: bool)
    ensures IntendedName(depco, numSource, aep, eu, epl) ==
      Join([Upper(depco)] + Tags(aep, eu, epl) + [Upper(numSource)], '_')
  {
    var p := Prefix(depco, aep, eu);
    TagsJoin(depco, aep, eu, epl);
    AddNumber([Upper(depco)] + Tags(aep, eu, epl), if epl then p + "_EPL" else p, numSource);
  }

  /** The intended name splits on `_` into the DEPCO code, the tags of the networks asked
      for, in order, and the source number: the name records its flags. */
  lemma IntendedNameSplits(depco: string, numSource: string, aep: bool, eu: bool, epl: bool)
    requires '_' !in depco && '_' !in numSource
    ensures Split(IntendedName(depco, numSource, aep, eu, epl), '_') ==
      [Upper(depco)] + Tags(aep, eu, epl) + [Upper(numSource)]
  {
    var parts := [Upper(depco)] + Tags(aep, eu, epl) + [Upper(numSource)];
    IntendedNameJoins(depco, numSource, aep, eu, epl);
    UpperKeeps(depco, '_');
    UpperKeeps(numSource, '_');
    assert forall k | 0 <= k < |parts| :: '_' !in parts[k];
    SplitJoin(parts, '_');
  }

  // ----------------------------------------------------------------------------------------
  // Path helpers (POSIX `os.path.basename` and `os.path.splitext`)
  // ----------------------------------------------------------------------------------------

  /** `os.path.basename`: the text after the last `/`. */
  function Basename(path: string): (name: string)
    ensures '/' !in name && EndsWith(path, name)
    ensures |name| < |path| ==> path[|path| - |name| - 1] == '/'
  {
    var i := LastIndexOf(path, '/') + 1;
    assert forall k | 0 <= k < |path| - i :: path[i..][k] == path[i + k];
    path[i..]
  }

  /** The last file name of `path` has a character other than a dot, so a dot in it can start
      an extension. */
  predicate HasStem(path: string) {
    exists k | LastIndexOf(path, '/') < k < |path| :: path[k] != '.'
  }

  /** `os.path.splitext`: the extension starts at the last dot of the file name, unless every
      character before that dot in the file name is a dot too; otherwise there is none. */
  function SplitExt(path: string): (r: (string, string))
    ensures r.0 + r.1 == path
    ensures r.1 == "" || (r.1[0] == '.' && '.' !in r.1[1..] && '/' !in r.1)
    ensures r.1 != "" ==> HasStem(r.0)
  {
    var sep := LastIndexOf(path, '/');
    var dot := LastIndexOf(path, '.');
    if sep < dot && exists k | sep + 1 <= k < dot :: path[k] != '.' then
      var root, ext := path[..dot], path[dot..];
      assert forall k | 0 <= k < |ext| :: ext[k] == path[dot + k];
      LastIndexOfUnique(root, '/', sep);
      (root, ext)
    else (path, "")
  }

  /** Appending an extension to a name that has a stem is undone by `SplitExt`. */
  lemma SplitExtAppend(root: string, ext: string)
    requires HasStem(root)
    requires |ext| >= 1 && ext[0] == '.' && '.' !in ext[1..] && '/' !in ext
    ensures SplitExt(root + ext) == (root, ext)
  {
    var path := root + ext;
    var sep := LastIndexOf(root, '/');
    assert forall k | |root| < k < |path| :: path[k] == ext[1..][k - |root| - 1];
    LastIndexOfUnique(path, '/', sep);
    LastIndexOfUnique(path, '.', |root|);
    var k :| sep < k < |root| && root[k] != '.';
    assert path[k] == root[k];
    assert path[..|root|] == root;
  }

  /** get_filename_without_extension: the file name of `path` without its extension. */
  function FilenameWithoutExtension(path: string): (name: string)
    ensures '/' !in name
  {
    var base := Basename(path);
    assert '/' !in SplitExt(base).0 by {
      assert base == SplitExt(base).0 + SplitExt(base).1;
    }
    SplitExt(base).0
  }

  /** The file name of a path in a folder is the part after the folder's `/`. */
  lemma BasenameIn(folder: string, file: string)
    requires '/' !in file
    ensures Basename(folder + "/" + file) == file
  {
    var path := folder + "/" + file;
    assert forall k | |folder| < k < |path| :: path[k] == file[k - |folder| - 1];
    LastIndexOfUnique(path, '/', |folder|);
    assert path[|folder| + 1..] == file;
  }

  /** A file `stem.x` in any folder gives back `stem`, and a bare name without a dot is its
      own result. */
  lemma FilenameWithoutExtensionOf(folder: string, stem: string, x: string)
    requires stem != "" && stem[0] != '.' && '/' !in stem
    requires '.' !in x && '/' !in x
    ensures FilenameWithoutExtension(folder + "/" + stem + "." + x) == stem
    ensures '.' !in stem ==> FilenameWithoutExtension(stem) == stem
  {
    var ext := "." + x;
    assert ext[1..] == x;
    assert folder + "/" + stem + "." + x == folder + "/" + (stem + ext);
    BasenameIn(folder, stem + ext);
    LastIndexOfUnique(stem, '/', -1);
    assert HasStem(stem);
    SplitExtAppend(stem, ext);
    if '.' !in stem {
      LastIndexOfUnique(stem, '.', -1);
    }
  }

  /** get_suffix_after_last_underscore: the last `_`-separated piece of the file name without
      its extension. */
  function SuffixAfterLastUnderscore(path: string): (suffix: string)
    ensures var name := FilenameWithoutExtension(path);
      && '_' !in suffix && EndsWith(name, suffix)
      && ('_' !in name ==> suffix == name)
      && ('_' in name ==> |suffix| < |name| && name[|name| - |suffix| - 1] == '_')
  {
    LastPiece(FilenameWithoutExtension(path), '_')
  }

  /** A file named by the intended scheme gives back its source number. */
  lemma SourceNumberReadBack(folder: string, depco: string, numSource: string,
                             aep: bool, eu: bool, epl: bool, x: string)
    requires depco != "" && depco[0] != '.' && '/' !in depco && '/' !in numSource
    requires '_' !in depco && '_' !in numSource
    requires '.' !in x && '/' !in x
    ensures SuffixAfterLastUnderscore(folder + "/" + IntendedName(depco, numSource, aep, eu, epl) + "." + x)
      == Upper(numSource)
  {
    var name := IntendedName(depco, numSource, aep, eu, epl);
    NameCharacters(depco, numSource, aep, eu, epl);
    FilenameWithoutExtensionOf(folder, name, x);
    IntendedNameSplits(depco, numSource, aep, eu, epl);
  }

  /** The first piece starts the joined string. */
  lemma JoinStartsWithFirst(parts: seq<string>, c: char)
    requires |parts| >= 1 && parts[0] != ""
    ensures |Join(parts, c)| >= 1 && Join(parts, c)[0] == parts[0][0]
  {
  }

  /** An intended name is a plain file name: not empty, without `/`, and not starting with
      a dot when the DEPCO code does not. */
  lemma NameCharacters(depco: string, numSource: string, aep: bool, eu: bool, epl: bool)
    requires depco != "" && depco[0] != '.' && '/' !in depco && '/' !in numSource
    ensures var name := IntendedName(depco, numSource, aep, eu, epl);
      name != "" && name[0] != '.' && '/' !in name
  {
    var p := Prefix(depco, aep, eu);
    var s := (if epl then p + "_EPL" else p) + "_" + numSource;
    assert '/' !in p && p[0] == depco[0];
    assert '/' !in s && s[0] == depco[0];
    UpperKeeps(s, '/');
    UpperAt(s);
  }

  // ----------------------------------------------------------------------------------------
  // check_shapefile_completeness
  // ----------------------------------------------------------------------------------------

  /** The four parts every shapefile needs. */
  const RequiredExts: set<string> := {".shp", ".shx", ".dbf", ".prj"}

  const SingleMissing := "Un fichier est manquant :\n"
  const SeveralMissing := "Des fichiers sont manquants :\n"

  /** The outcome of the check: the shapefile names when nothing is missing, otherwise the
      message of the `FileNotFoundError` the source raises. */
  datatype Completeness = Complete(basenames: seq<string>) | Incomplete(message: string)

  predicate Distinct(xs: seq<string>) {
    forall i, j | 0 <= i < j < |xs| :: xs[i] != xs[j]
  }

  function Elems(xs: seq<string>): set<string> {
    set x | x in xs
  }

  /** The names, extension removed, of the listed files that end in `.shp`. */
  function ShapefileBasenames(listing: seq<string>): set<string> {
    set f | f in listing && EndsWith(f, ".shp") :: SplitExt(f).0
  }

  /** The extensions of the listed files whose name without extension is `basename`. */
  function PresentExts(listing: seq<string>, basename: string): set<string> {
    set f | f in listing && SplitExt(f).0 == basename :: SplitExt(f).1
  }

  function MissingExts(listing: seq<string>, basename: string): (exts: set<string>)
    ensures exts <= RequiredExts
  {
    RequiredExts - PresentExts(listing, basename)
  }

  /** The files reported missing for the shapefiles in `among`. */
  function MissingFor(listing: seq<string>, among: set<string>): set<string> {
    set b, e | b in among && e in MissingExts(listing, b) :: b + e
  }

  /** Every missing file of every shapefile of the listing. */
  function MissingParts(listing: seq<string>): set<string> {
    MissingFor(listing, ShapefileBasenames(listing))
  }

  /** The message naming the missing files: one on its own line, or several, one per line. */
  function ShapefileMissingMessage(missing: seq<string>): (message: string)
    requires missing != []
  {
    if |missing| == 1 then SingleMissing + missing[0] else SeveralMissing + Join(missing, '\n')
  }

  /** The message is worded for one file exactly when one file is missing. */
  lemma ShapefileMissingMessageSingular(missing: seq<string>)
    requires missing != []
    ensures StartsWith(ShapefileMissingMessage(missing), SingleMissing) <==> |missing| == 1
    ensures |missing| > 1 ==> StartsWith(ShapefileMissingMessage(missing), SeveralMissing)
  {
    if |missing| > 1 {
      assert ShapefileMissingMessage(missing)[0] == 'D';
    }
  }

  /** A missing name and its extension are read back from the reported file: all required
      extensions have the same length. */
  lemma MissingNameInjective(b1: string, e1: string, b2: string, e2: string)
    requires e1 in RequiredExts && e2 in RequiredExts && b1 + e1 == b2 + e2
    ensures b1 == b2 && e1 == e2
  {
    assert |b1| == |b2|;
    assert b1 == (b1 + e1)[..|b1|];
    assert b2 == (b2 + e2)[..|b2|];
    assert e1 == (b1 + e1)[|b1|..];
    assert e2 == (b2 + e2)[|b2|..];
  }

  /** Appending a new element keeps a list free of repeats. */
  lemma DistinctSnoc(xs: seq<string>, x: string)
    requires Distinct(xs) && x !in Elems(xs)
    ensures Distinct(xs + [x]) && Elems(xs + [x]) == Elems(xs) + {x}
  {
  }

  lemma {:induction false} DistinctCard(xs: seq<string>)
    requires Distinct(xs)
    ensures |Elems(xs)| == |xs|
  {
    if xs != [] {
      var init := xs[..|xs| - 1];
      DistinctCard(init);
      assert xs == init + [xs[|xs| - 1]];
      DistinctSnoc(init, xs[|xs| - 1]);
    }
  }

  /** Lists the elements of a set, in some order (Python's `list(s)`). */
  method ListOf(s: set<string>) returns (xs: seq<string>)
    ensures Distinct(xs) && Elems(xs) == s
  {
    xs := [];
    var todo := s;
    while todo != {}
      invariant todo <= s && Distinct(xs)
      invariant Elems(xs) == s - todo
      decreases |todo|
    {
      var x :| x in todo;
      DistinctSnoc(xs, x);
      xs := xs + [x];
      todo := todo - {x};
    }
  }

  /** The files named by one shapefile and some extensions. */
  function WithExts(b: string, exts: set<string>): set<string> {
    set e | e in exts :: b + e
  }

  /** Taking one more shapefile into account adds its own missing files. */
  lemma MissingForAdd(listing: seq<string>, done: set<string>, b: string)
    ensures MissingFor(listing, done + {b}) == MissingFor(listing, done) + WithExts(b, MissingExts(listing, b))
  {
  }

  /** The files of a shapefile not yet handled are not among those already reported. */
  lemma NotYetListed(listing: seq<string>, done: set<string>, b: string, exts: set<string>)
    requires b !in done && exts <= RequiredExts
    ensures MissingFor(listing, done) !! WithExts(b, exts)
  {
    forall x | x in MissingFor(listing, done) && x in WithExts(b, exts)
      ensures false
    {
      var b2, e2 :| b2 in done && e2 in MissingExts(listing, b2) && x == b2 + e2;
      var e :| e in exts && x == b + e;
      MissingNameInjective(b, e, b2, e2);
    }
  }

  lemma WithExtsAdd(b: string, exts: set<string>, e: string)
    ensures WithExts(b, exts + {e}) == WithExts(b, exts) + {b + e}
  {
  }

  /** A file for an extension not yet handled is not yet listed. */
  lemma NewExt(b: string, added: set<string>, e: string)
    requires e !in added && added <= RequiredExts && e in RequiredExts
    ensures b + e !in WithExts(b, added)
  {
    if b + e in WithExts(b, added) {
      var e2 :| e2 in added && b + e == b + e2;
      MissingNameInjective(b, e, b, e2);
    }
  }

  /** Appends the files of one shapefile for the given extensions, in the order Python's set
      yields them (left open here). */
  method AppendWithExts(b: string, exts: set<string>, missing: seq<string>) returns (missing': seq<string>)
    requires exts <= RequiredExts && Distinct(missing) && Elems(missing) !! WithExts(b, exts)
    ensures Distinct(missing') && Elems(missing') == Elems(missing) + WithExts(b, exts)
  {
    missing' := missing;
    var todo := exts;
    ghost var added: set<string> := {};
    while todo != {}
      invariant todo + added == exts && todo !! added
      invariant Distinct(missing')
      invariant Elems(missing') == Elems(missing) + WithExts(b, added)
      decreases |todo|
    {
      var e :| e in todo;
      NewExt(b, added, e);
      DistinctSnoc(missing', b + e);
      missing' := missing' + [b + e];
      WithExtsAdd(b, added, e);
      todo := todo - {e};
      added := added + {e};
    }
  }

  /** Appends the missing files of one shapefile. */
  method AddMissing(listing: seq<string>, b: string, ghost done: set<string>, missing: seq<string>)
    returns (missing': seq<string>)
    requires b !in done && Distinct(missing) && Elems(missing) == MissingFor(listing, done)
    ensures Distinct(missing') && Elems(missing') == MissingFor(listing, done + {b})
  {
    var present := set f | f in listing && SplitExt(f).0 == b :: SplitExt(f).1;
    var exts := RequiredExts - present;
    assert exts == MissingExts(listing, b);
    NotYetListed(listing, done, b, exts);
    missing' := AppendWithExts(b, exts, missing);
    MissingForAdd(listing, done, b);
  }

  /** check_shapefile_completeness, over the names `os.listdir` gives: every shapefile found
      through its `.shp` file must come with its `.shx`, `.dbf` and `.prj` parts. The order
      in which Python walks its sets is left open. */
  method CheckShapefileCompleteness(listing: seq<string>) returns (r: Completeness)
    ensures r.Complete? <==> MissingParts(listing) == {}
    ensures r.Complete? ==> Distinct(r.basenames) && Elems(r.basenames) == ShapefileBasenames(listing)
    ensures r.Incomplete? ==>
      exists missing :: missing != [] && Distinct(missing) && Elems(missing) == MissingParts(listing)
        && r.message == ShapefileMissingMessage(missing)
    ensures r.Incomplete? ==>
      (StartsWith(r.message, SingleMissing) <==> |MissingParts(listing)| == 1)
  {
    var basenames := set f | f in listing && EndsWith(f, ".shp") :: SplitExt(f).0;
    var missing := CollectMissing(listing, basenames);
    if missing != [] {
      assert missing[0] in Elems(missing);
      ShapefileMissingMessageSingular(missing);
      DistinctCard(missing);
      r := Incomplete(ShapefileMissingMessage(missing));
    } else {
      var names := ListOf(basenames);
      r := Complete(names);
    }
  }

  /** The loop over the shapefile names: the missing files of each, once each. */
  method CollectMissing(listing: seq<string>, basenames: set<string>) returns (missing: seq<string>)
    ensures Distinct(missing) && Elems(missing) == MissingFor(listing, basenames)
  {
    missing := [];
    var todo := basenames;
    while todo != {}
      invariant todo <= basenames && Distinct(missing)
      invariant Elems(missing) == MissingFor(listing, basenames - todo)
      decreases |todo|
    {
      var b :| b in todo;
      missing := AddMissing(listing, b, basenames - todo, missing);
      assert basenames - todo + {b} == basenames - (todo - {b});
      todo := todo - {b};
    }
    assert basenames - todo == basenames;
  }

  /** A shapefile name found through its `.shp` file has a stem, so a required extension
      added to it splits off again. */
  lemma ShapefileStem(f: string)
    requires EndsWith(f, ".shp")
    ensures HasStem(SplitExt(f).0)
  {
    var r := SplitExt(f);
    if r.1 == "" {
      assert f[|f| - 1] == 'p';
      assert r.0 == f;
    }
  }

  /** For a name with a stem, an extension is present exactly when the file is listed. */
  lemma PresentIffListed(listing: seq<string>, b: string, e: string)
    requires HasStem(b) && e in RequiredExts
    ensures e in PresentExts(listing, b) <==> b + e in listing
  {
    assert e[0] == '.' && '.' !in e[1..] && '/' !in e;
    SplitExtAppend(b, e);
    if e in PresentExts(listing, b) {
      var g :| g in listing && SplitExt(g).0 == b && SplitExt(g).1 == e;
      assert g == b + e;
    }
  }

  /** A required part of a shapefile is reported missing exactly when its extension is
      missing for that name. */
  lemma MissingPartsIff(listing: seq<string>, b: string, e: string)
    requires b in ShapefileBasenames(listing) && e in RequiredExts
    ensures b + e in MissingParts(listing) <==> e in MissingExts(listing, b)
  {
    if b + e in MissingParts(listing) {
      var b2, e2 :| b2 in ShapefileBasenames(listing) && e2 in MissingExts(listing, b2) && b + e == b2 + e2;
      MissingNameInjective(b, e, b2, e2);
    }
  }

  /** A required part of a shapefile is reported missing exactly when no listed file has
      that name. */
  lemma MissingIffUnlisted(listing: seq<string>, b: string, e: string)
    requires b in ShapefileBasenames(listing) && e in RequiredExts
    ensures b + e in MissingParts(listing) <==> b + e !in listing
  {
    var f :| f in listing && EndsWith(f, ".shp") && SplitExt(f).0 == b;
    ShapefileStem(f);
    PresentIffListed(listing, b, e);
    MissingPartsIff(listing, b, e);
  }

  // ----------------------------------------------------------------------------------------
  // open_config: converting the rows of a configuration CSV
  // ----------------------------------------------------------------------------------------

  /** One converted row: its label and its integer code, or, when the code is not an
      integer, the error text (the source pairs it with the string "ERROR"). */
  datatype ConfigEntry = Entry(name: string, code: int) | ConversionError(message: string)

  /** The text of Python's `ValueError` for `int(s)`. */
  function IntErrorText(s: string): string {
    "Error : invalid literal for int() with base 10: '" + s + "'"
  }

  function ConvertRow(row: seq<string>): ConfigEntry
    requires |row| >= 2
  {
    match PyInt(row[0])
    case Some(v) => Entry(row[1], v)
    case None => ConversionError(IntErrorText(row[0]))
  }

  /** The entries for `rows`: one per row with at least two fields, in row order. */
  function ConfigEntries(rows: seq<seq<string>>): seq<ConfigEntry> {
    if rows == [] then []
    else
      var row := rows[|rows| - 1];
      ConfigEntries(rows[..|rows| - 1]) + (if |row| >= 2 then [ConvertRow(row)] else [])
  }

  /** How many entries are successful conversions. */
  function EntryCount(entries: seq<ConfigEntry>): nat {
    if entries == [] then 0
    else EntryCount(entries[..|entries| - 1]) + (if entries[|entries| - 1].Entry? then 1 else 0)
  }

  /** The rows with at least two fields. */
  function LongRows(rows: seq<seq<string>>): (long: seq<seq<string>>)
    ensures forall k | 0 <= k < |long| :: |long[k]| >= 2
  {
    if rows == [] then []
    else
      var row := rows[|rows| - 1];
      LongRows(rows[..|rows| - 1]) + (if |row| >= 2 then [row] else [])
  }

  /** The conversion loop of open_config: rows with fewer than two fields are skipped, the
      others converted in order; the count is that of the successful conversions. */
  method ConvertConfigRows(rows: seq<seq<string>>) returns (entries: seq<ConfigEntry>, rowCount: nat)
    ensures entries == ConfigEntries(rows)
    ensures rowCount == EntryCount(entries)
  {
    entries, rowCount := [], 0;
    for i := 0 to |rows|
      invariant entries == ConfigEntries(rows[..i])
      invariant rowCount == EntryCount(entries)
    {
      var row := rows[i];
      assert rows[..i + 1][..i] == rows[..i];
      if |row| >= 2 {
        match PyInt(row[0])
        case Some(v) =>
          entries := entries + [Entry(row[1], v)];
          rowCount := rowCount + 1;
        case None =>
          entries := entries + [ConversionError(IntErrorText(row[0]))];
      }
      assert entries[..|entries| - 0] == entries;
    }
    assert rows[..|rows|] == rows;
  }

  /** The entries are the long rows converted one by one, in order. */
  lemma {:induction false} ConfigEntriesSpec(rows: seq<seq<string>>)
    ensures |ConfigEntries(rows)| == |LongRows(rows)|
    ensures forall k | 0 <= k < |ConfigEntries(rows)| :: ConfigEntries(rows)[k] == ConvertRow(LongRows(rows)[k])
  {
    if rows != [] {
      ConfigEntriesSpec(rows[..|rows| - 1]);
    }
  }

  /** Some row with two fields carries the label `name` and a first field that reads as
      `code`. */
  predicate HasRowFor(rows: seq<seq<string>>, name: string, code: int) {
    exists j | 0 <= j < |rows| :: |rows[j]| >= 2 && rows[j][1] == name && PyInt(rows[j][0]) == Some(code)
  }

  lemma HasRowForSnoc(rows: seq<seq<string>>, name: string, code: int)
    requires rows != []
    ensures var row := rows[|rows| - 1];
      HasRowFor(rows, name, code) <==>
        HasRowFor(rows[..|rows| - 1], name, code) ||
        (|row| >= 2 && row[1] == name && PyInt(row[0]) == Some(code))
  {
    var init := rows[..|rows| - 1];
    assert forall j | 0 <= j < |init| :: init[j] == rows[j];
  }

  /** A label and code appear among the entries exactly when some row with two fields carries
      that label and a first field that reads as that integer. */
  lemma {:induction false} EntryIff(rows: seq<seq<string>>, name: string, code: int)
    ensures Entry(name, code) in ConfigEntries(rows) <==> HasRowFor(rows, name, code)
  {
    if rows != [] {
      var init := rows[..|rows| - 1];
      EntryIff(init, name, code);
      HasRowForSnoc(rows, name, code);
    }
  }

  /** One more row adds one entry when it has two fields, counted when its code converts. */
  lemma ConfigEntriesStep(rows: seq<seq<string>>)
    requires rows != []
    ensures var init, row := rows[..|rows| - 1], rows[|rows| - 1];
      && |ConfigEntries(rows)| == |ConfigEntries(init)| + (if |row| >= 2 then 1 else 0)
      && EntryCount(ConfigEntries(rows)) ==
           EntryCount(ConfigEntries(init)) + (if |row| >= 2 && PyInt(row[0]).Some? then 1 else 0)
  {
    var init, row := rows[..|rows| - 1], rows[|rows| - 1];
    var entries, before := ConfigEntries(rows), ConfigEntries(init);
    if |row| >= 2 {
      assert entries[..|entries| - 1] == before;
    } else {
      assert entries == before;
    }
  }

  /** The count never exceeds the entries, and equals them exactly when every row with two
      fields has an integer first field. */
  lemma {:induction false} RowCountIff(rows: seq<seq<string>>)
    ensures EntryCount(ConfigEntries(rows)) <= |ConfigEntries(rows)|
    ensures EntryCount(ConfigEntries(rows)) == |ConfigEntries(rows)| <==>
      forall j | 0 <= j < |rows| && |rows[j]| >= 2 :: PyInt(rows[j][0]).Some?
  {
    if rows != [] {
      var init := rows[..|rows| - 1];
      RowCountIff(init);
      ConfigEntriesStep(rows);
      assert forall j | 0 <= j < |init| :: init[j] == rows[j];
    }
  }

  // ----------------------------------------------------------------------------------------
  // get_plugin_version
  // ----------------------------------------------------------------------------------------

  const VersionKey := "version="
  const UnknownVersion := "Unknown"

  /** The version a `version=` line gives: its second `=`-separated piece, stripped. */
  function VersionOf(line: string): string
    requires StartsWith(line, VersionKey)
  {
    assert line[7] == '=';
    var parts := Split(line, '=');
    parts[1]
  }

  /** The version the first `version=` line gives, or "Unknown" without one. */
  function PluginVersion(lines: seq<string>): string {
    if lines == [] then UnknownVersion
    else if StartsWith(lines[0], VersionKey) then Strip(VersionOf(lines[0]))
    else PluginVersion(lines[1..])
  }

  /** get_plugin_version over the lines of metadata.txt: returns at the first line that starts
      with `version=`. */
  method GetPluginVersion(lines: seq<string>) returns (version: string)
    ensures version == PluginVersion(lines)
  {
    for i := 0 to |lines|
      invariant PluginVersion(lines[i..]) == PluginVersion(lines)
    {
      var line := lines[i];
      assert lines[i..][1..] == lines[i + 1..];
      if StartsWith(line, VersionKey) {
        return Strip(VersionOf(line));
      }
    }
    return UnknownVersion;
  }

  /** Without a `version=` line the version is "Unknown". */
  lemma {:induction false} NoVersionLine(lines: seq<string>)
    requires forall k | 0 <= k < |lines| :: !StartsWith(lines[k], VersionKey)
    ensures PluginVersion(lines) == UnknownVersion
  {
    if lines != [] {
      assert forall k | 0 <= k < |lines| - 1 :: lines[1..][k] == lines[k + 1];
      NoVersionLine(lines[1..]);
    }
  }

  /** The version is that of the first `version=` line; later ones are ignored. */
  lemma {:induction false} FirstVersionLine(lines: seq<string>, i: nat)
    requires i < |lines| && StartsWith(lines[i], VersionKey)
    requires forall k | 0 <= k < i :: !StartsWith(lines[k], VersionKey)
    ensures PluginVersion(lines) == Strip(VersionOf(lines[i]))
  {
    if i > 0 {
      assert forall k | 0 <= k < i - 1 :: lines[1..][k] == lines[k + 1];
      FirstVersionLine(lines[1..], i - 1);
    }
  }

  /** The version is the text after `version=` up to the next `=`, if any. */
  lemma VersionOfSpec(line: string)
    requires StartsWith(line, VersionKey)
    ensures var rest := line[|VersionKey|..];
      VersionOf(line) == if '=' in rest then rest[..IndexOf(rest, '=')] else rest
  {
    assert line[..8] == VersionKey;
    assert '=' !in line[..7];
    IndexOfUnique(line, '=', 7);
    var rest := line[8..];
    assert Split(line, '=') == [line[..7]] + Split(rest, '=');
  }
}
