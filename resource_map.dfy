/** From file names to the table of resources: the extension table, the
    split of a file name into name and extension, and the identifier ->
    locator-list map that every loader fills. */
module ResourceMaps {
  import opened Common
  import opened ResourceNames

  // ---------------------------------------------------------------------
  // Extension table
  // ---------------------------------------------------------------------

  /** The extension table as written: the text entry's key is "TXT", without
      the leading dot every other key has. */
  const EXT_TABLE_AS_WRITTEN: map<string, ResType> := map[
    "TXT" := Text, ".JSON" := Text, ".DEF" := Animation, ".MSK" := Mask, ".MSG" := Mask,
    ".H3C" := Campaign, ".H3M" := Map, ".FNT" := Font, ".BMP" := Graphics,
    ".JPG" := Graphics, ".PCX" := Graphics, ".PNG" := Graphics, ".TGA" := Graphics,
    ".WAV" := Sound, ".SMK" := Video, ".BIK" := Video]

  /** The table with the text key spelt like the extensions it is matched
      against. */
  const EXT_TABLE: map<string, ResType> := map[
    ".TXT" := Text, ".JSON" := Text, ".DEF" := Animation, ".MSK" := Mask, ".MSG" := Mask,
    ".H3C" := Campaign, ".H3M" := Map, ".FNT" := Font, ".BMP" := Graphics,
    ".JPG" := Graphics, ".PCX" := Graphics, ".PNG" := Graphics, ".TGA" := Graphics,
    ".WAV" := Sound, ".SMK" := Video, ".BIK" := Video]

  /** `convertFileExtToResType` as written: a table lookup, OTHER when absent. */
  function ConvertFileExtToResTypeAsWritten(ext: string): (t: ResType)
    ensures ext in EXT_TABLE_AS_WRITTEN ==> t == EXT_TABLE_AS_WRITTEN[ext]
    ensures ext !in EXT_TABLE_AS_WRITTEN ==> t == Other
  {
    if ext in EXT_TABLE_AS_WRITTEN then EXT_TABLE_AS_WRITTEN[ext] else Other
  }

  /** `convertFileExtToResType` with the corrected text key. */
  function ConvertFileExtToResType(ext: string): (t: ResType)
    ensures ext in EXT_TABLE ==> t == EXT_TABLE[ext]
    ensures ext !in EXT_TABLE ==> t == Other
  {
    if ext in EXT_TABLE then EXT_TABLE[ext] else Other
  }

  /** The fixed mapping of extensions to kinds; the lookup never yields ANY or
      SAVEGAME, and yields OTHER exactly for extensions outside the table. */
  lemma ExtensionTable(ext: string)
    ensures ConvertFileExtToResType(".DEF") == Animation
    ensures ConvertFileExtToResType(".BMP") == Graphics && ConvertFileExtToResType(".JPG") == Graphics
    ensures ConvertFileExtToResType(".PCX") == Graphics && ConvertFileExtToResType(".PNG") == Graphics
    ensures ConvertFileExtToResType(".TGA") == Graphics
    ensures ConvertFileExtToResType(".SMK") == Video && ConvertFileExtToResType(".BIK") == Video
    ensures ConvertFileExtToResType(".WAV") == Sound
    ensures ConvertFileExtToResType(".TXT") == Text && ConvertFileExtToResType(".JSON") == Text
    ensures ConvertFileExtToResType(ext) != Any && ConvertFileExtToResType(ext) != SaveGame
    ensures ConvertFileExtToResType(ext) == Other <==> ext !in EXT_TABLE
  {
    TableEntries();
    TableKinds(ext);
  }

  lemma TableEntries()
    ensures EXT_TABLE[".DEF"] == Animation
    ensures EXT_TABLE[".BMP"] == Graphics && EXT_TABLE[".JPG"] == Graphics
    ensures EXT_TABLE[".PCX"] == Graphics && EXT_TABLE[".PNG"] == Graphics
    ensures EXT_TABLE[".TGA"] == Graphics
    ensures EXT_TABLE[".SMK"] == Video && EXT_TABLE[".BIK"] == Video
    ensures EXT_TABLE[".WAV"] == Sound
    ensures EXT_TABLE[".TXT"] == Text && EXT_TABLE[".JSON"] == Text
  {
  }

  lemma TableKinds(ext: string)
    ensures ext in EXT_TABLE ==> EXT_TABLE[ext] != Any && EXT_TABLE[ext] != SaveGame && EXT_TABLE[ext] != Other
  {
  }

  /** The two tables differ only in the text key: every other extension maps
      to the same kind under both. */
  lemma ConvertAgreesExceptText(ext: string)
    requires ext != "TXT" && ext != ".TXT"
    ensures ConvertFileExtToResTypeAsWritten(ext) == ConvertFileExtToResType(ext)
  {
  }

  // ---------------------------------------------------------------------
  // Splitting a file name
  // ---------------------------------------------------------------------

  predicate IsSep(c: char) {
    c == '/' || c == '.'
  }

  /** `find_last_of("/.")`: the index of the last '/' or '.', if any. */
  function LastSep(s: string): (r: Option<nat>)
    ensures r.Some? ==> r.value < |s| && IsSep(s[r.value])
    ensures r.Some? ==> forall j :: r.value < j < |s| ==> !IsSep(s[j])
    ensures r.None? ==> forall j :: 0 <= j < |s| ==> !IsSep(s[j])
  {
    if s == [] then None
    else if IsSep(s[|s| - 1]) then Some(|s| - 1)
    else LastSep(s[..|s| - 1])
  }

  /** `adaptResourceName` as written: the upper-casing transform writes into
      an empty string, so the name it searches stays empty, no separator is
      found in it, and both halves come back empty whatever the input. */
  function AdaptResourceNameAsWritten(resName: string): (r: (string, string))
    ensures r == ("", "")
  {
    var fileNameNew: string := "";
    (fileNameNew, "")
  }

  /** `adaptResourceName` as intended: the upper-cased name, with the
      extension (dot included) split off when the last '/' or '.' is a '.'. */
  function AdaptResourceName(resName: string): (r: (string, string))
    ensures r.0 + r.1 == Upper(resName)
    ensures r.1 == [] || (r.1[0] == '.' && forall i :: 1 <= i < |r.1| ==> !IsSep(r.1[i]))
    ensures r.1 == [] ==> LastSep(r.0).None? || r.0[LastSep(r.0).value] == '/'
  {
    var u := Upper(resName);
    match LastSep(u)
    case Some(k) =>
      if u[k] == '.' then
        SplitAtDot(u, k);
        (u[..k], u[k..])
      else (u, "")
    case None => (u, "")
  }

  /** Cutting at the last separator, a '.', gives an extension that starts
      with the dot and holds no other separator. */
  lemma SplitAtDot(u: string, k: nat)
    requires LastSep(u) == Some(k) && u[k] == '.'
    ensures u[..k] + u[k..] == u
    ensures u[k..] != [] && u[k..][0] == '.'
    ensures forall i :: 1 <= i < |u[k..]| ==> !IsSep(u[k..][i])
  {
    assert u[..k] + u[k..] == u;
    forall i | 1 <= i < |u[k..]|
      ensures !IsSep(u[k..][i])
    {
      assert u[k..][i] == u[k + i];
    }
  }

  /** A split of an upper-cased name with the three properties of
      `AdaptResourceName` has a non-empty extension exactly when the last '/'
      or '.' is a '.', and then the extension starts there. */
  lemma SplitCharacterization(u: string, name: string, ext: string)
    requires name + ext == u
    requires ext == [] || (ext[0] == '.' && forall i :: 1 <= i < |ext| ==> !IsSep(ext[i]))
    requires ext == [] ==> LastSep(name).None? || name[LastSep(name).value] == '/'
    ensures ext != [] <==> LastSep(u).Some? && u[LastSep(u).value] == '.'
    ensures ext != [] ==> |name| == LastSep(u).value
  {
    if ext != [] {
      var k := |name|;
      assert u[k] == ext[0];
      forall j | k < j < |u| ensures !IsSep(u[j]) {
        assert u[j] == ext[j - k];
      }
      LastSepAt(u, k);
    } else {
      assert name == u;
    }
  }

  /** The extension is everything after the last '/' or '.', provided that is
      a dot. The three properties of the result leave no other choice: any
      split of the upper-cased name that has them is the one computed. */
  lemma AdaptResourceNameUnique(resName: string, name: string, ext: string)
    requires name + ext == Upper(resName)
    requires ext == [] || (ext[0] == '.' && forall i :: 1 <= i < |ext| ==> !IsSep(ext[i]))
    requires ext == [] ==> LastSep(name).None? || name[LastSep(name).value] == '/'
    ensures (name, ext) == AdaptResourceName(resName)
  {
    var u := Upper(resName);
    var r := AdaptResourceName(resName);
    SplitCharacterization(u, name, ext);
    SplitCharacterization(u, r.0, r.1);
    assert |name| == |r.0|;
    assert name == u[..|name|] && r.0 == u[..|r.0|];
    assert ext == u[|name|..] && r.1 == u[|r.0|..];
  }

  /** A separator after which no separator occurs is the one `LastSep` finds. */
  lemma LastSepAt(s: string, k: nat)
    requires k < |s| && IsSep(s[k])
    requires forall j :: k < j < |s| ==> !IsSep(s[j])
    ensures LastSep(s) == Some(k)
  {
    if k < |s| - 1 {
      assert s[..|s| - 1][k] == s[k];
      LastSepAt(s[..|s| - 1], k);
    }
  }

  /** Counterexample for `adaptResourceName` as written: "a.def" should split
      into "A" and ".DEF". */
  lemma AdaptResourceNameAsWrittenLosesName()
    ensures AdaptResourceNameAsWritten("a.def") == ("", "")
    ensures AdaptResourceName("a.def") == ("A", ".DEF")
  {
    assert Upper("a.def") == "A.DEF";
    LastSepAt("A.DEF", 1);
  }

  /** Counterexample for the text key: a ".txt" file is split into a ".TXT"
      extension, which the table as written classifies as OTHER, while the
      corrected table classifies it as TEXT. */
  lemma TextExtensionAsWritten()
    ensures AdaptResourceName("a.txt").1 == ".TXT"
    ensures ConvertFileExtToResTypeAsWritten(".TXT") == Other
    ensures ConvertFileExtToResType(".TXT") == Text
  {
    TextSplit();
    assert ".TXT" !in EXT_TABLE_AS_WRITTEN;
  }

  /** "a.txt" splits into "A" and ".TXT". */
  lemma TextSplit()
    ensures AdaptResourceName("a.txt") == ("A", ".TXT")
  {
    assert Upper("a.txt") == "A.TXT";
    LastSepAt("A.TXT", 1);
  }

  /** As written, no file name is classified TEXT except through ".JSON":
      the key "TXT" never matches an extension, which always starts with a dot. */
  lemma TextOnlyThroughJsonAsWritten(resName: string)
    ensures ConvertFileExtToResTypeAsWritten(AdaptResourceName(resName).1) == Text ==>
              AdaptResourceName(resName).1 == ".JSON"
  {
    var ext := AdaptResourceName(resName).1;
    if ConvertFileExtToResTypeAsWritten(ext) == Text {
      TextKeysAsWritten(ext);
      assert "TXT"[0] != '.';
    }
  }

  lemma TextKeysAsWritten(ext: string)
    requires ext in EXT_TABLE_AS_WRITTEN && EXT_TABLE_AS_WRITTEN[ext] == Text
    ensures ext == "TXT" || ext == ".JSON"
  {
  }

  // ---------------------------------------------------------------------
  // The identifier -> locators table
  // ---------------------------------------------------------------------

  type ResourcesMap = map<ResourceIdentifier, seq<ResourceLocator>>

  /** What the callee's local copy of the map holds after `addResourceToMap`
      as written: `insert` adds a one-element list for a new identifier but
      does not replace the list of a known one, so the append is lost. */
  function LocalMapAfterAddAsWritten(m: ResourcesMap, id: ResourceIdentifier, loc: ResourceLocator): (r: ResourcesMap)
    ensures id !in m ==> r == m[id := [loc]]
    ensures id in m ==> r == m
  {
    if id !in m then m[id := [loc]] else m
  }

  /** What the caller's map holds after `addResourceToMap` as written: the map
      is taken by value, so whatever the local copy became, the caller's map
      is the one it passed in. */
  function AddResourceToMapAsWritten(m: ResourcesMap, id: ResourceIdentifier, loc: ResourceLocator): (r: ResourcesMap)
    ensures r == m
  {
    var local := LocalMapAfterAddAsWritten(m, id, loc);
    m
  }

  /** The intended `addResourceToMap`: the locator is appended to the end of
      the identifier's list (a new identifier gets a one-element list), and
      every other identifier keeps its list. */
  function AddResourceToMap(m: ResourcesMap, id: ResourceIdentifier, loc: ResourceLocator): (r: ResourcesMap)
    ensures r.Keys == m.Keys + {id}
    ensures r[id] == ListAt(m, id) + [loc]
    ensures forall other :: other in m && other != id ==> r[other] == m[other]
  {
    m[id := ListAt(m, id) + [loc]]
  }

  /** Counterexample for `addResourceToMap` as written: adding to an empty
      map leaves it empty, and even the callee's copy drops the second
      locator of a known identifier. */
  lemma AddResourceToMapAsWrittenLosesLocators(id: ResourceIdentifier, a: ResourceLocator, b: ResourceLocator)
    requires a != b
    ensures id !in AddResourceToMapAsWritten(map[], id, a)
    ensures ListAt(AddResourceToMap(map[], id, a), id) == [a]
    ensures ListAt(LocalMapAfterAddAsWritten(map[id := [a]], id, b), id) == [a]
    ensures ListAt(AddResourceToMap(map[id := [a]], id, b), id) == [a, b]
  {
  }

  /** The identifier a file is registered under by a loader with `prefix`:
      prefix + the name without extension, with the kind the extension gives. */
  function EntryIdentifier(prefix: string, name: string): (id: ResourceIdentifier)
    ensures id.name == Upper(prefix) + AdaptResourceName(name).0
    ensures id.rtype == ConvertFileExtToResType(AdaptResourceName(name).1)
  {
    var split := AdaptResourceName(name);
    UpperAppend(prefix, split.0);
    UpperIsUpper(name);
    UpperOfUpperPrefix(Upper(name), split.0, split.1);
    MakeIdentifier(prefix + split.0, ConvertFileExtToResType(split.1))
  }

  /** A prefix of an upper-case string is unchanged by upper-casing. */
  lemma UpperOfUpperPrefix(u: string, a: string, b: string)
    requires a + b == u && Upper(u) == u
    ensures Upper(a) == a
  {
    forall i | 0 <= i < |a| ensures Upper(a)[i] == a[i] {
      assert u[i] == a[i];
      assert Upper(u)[i] == ToUpper(u[i]);
    }
  }

  /** A locator registration: the identifier and the locator added for it. */
  datatype Registration = Registration(id: ResourceIdentifier, loc: ResourceLocator)

  /** Applying registrations in order with the intended `addResourceToMap`. */
  function AddAll(m: ResourcesMap, regs: seq<Registration>): ResourcesMap
    decreases |regs|
  {
    if regs == [] then m
    else
      var last := regs[|regs| - 1];
      AddResourceToMap(AddAll(m, regs[..|regs| - 1]), last.id, last.loc)
  }

  /** Registering one more: the map after the first i + 1 registrations is
      the map after the first i with the (i+1)-th added. */
  lemma AddAllStep(m: ResourcesMap, regs: seq<Registration>, i: nat)
    requires i < |regs|
    ensures AddAll(m, regs[..i + 1]) == AddResourceToMap(AddAll(m, regs[..i]), regs[i].id, regs[i].loc)
  {
    assert regs[..i + 1][..i] == regs[..i];
  }

  /** The locators of the registrations for `id`, in registration order. */
  function LocatorsFor(regs: seq<Registration>, id: ResourceIdentifier): (l: seq<ResourceLocator>)
    ensures |l| <= |regs|
    decreases |regs|
  {
    if regs == [] then []
    else
      var last := regs[|regs| - 1];
      LocatorsFor(regs[..|regs| - 1], id) + (if last.id == id then [last.loc] else [])
  }

  /** After a series of registrations the list for `id` is its old list
      followed by the locators registered for it, in registration order; the
      identifiers present are the old ones and the registered ones. */
  lemma {:induction false} AddAllLocators(m: ResourcesMap, regs: seq<Registration>, id: ResourceIdentifier)
    ensures ListAt(AddAll(m, regs), id) == ListAt(m, id) + LocatorsFor(regs, id)
    ensures id in AddAll(m, regs) <==> id in m || LocatorsFor(regs, id) != []
    decreases |regs|
  {
    if regs != [] {
      var init := regs[..|regs| - 1];
      AddAllLocators(m, init, id);
      var last := regs[|regs| - 1];
      if last.id == id {
        assert ListAt(AddAll(m, regs), id) == ListAt(AddAll(m, init), id) + [last.loc];
      } else {
        assert ListAt(AddAll(m, regs), id) == ListAt(AddAll(m, init), id);
      }
    }
  }

  /** Every locator registered for `id` is the locator of a registration for
      `id`. */
  lemma {:induction false} LocatorsForMember(regs: seq<Registration>, id: ResourceIdentifier, loc: ResourceLocator)
    requires loc in LocatorsFor(regs, id)
    ensures exists i :: 0 <= i < |regs| && regs[i].id == id && regs[i].loc == loc
    decreases |regs|
  {
    var init := regs[..|regs| - 1];
    var last := regs[|regs| - 1];
    if loc in LocatorsFor(init, id) {
      LocatorsForMember(init, id, loc);
      var i :| 0 <= i < |init| && init[i].id == id && init[i].loc == loc;
      assert regs[i] == init[i];
    } else {
      assert last.id == id && last.loc == loc;
    }
  }

  /** A registration for `id` does make it into the list for `id`: the last
      registration for `id` ends it. */
  lemma {:induction false} LocatorsForLast(regs: seq<Registration>, id: ResourceIdentifier, i: nat)
    requires i < |regs| && regs[i].id == id
    requires forall j :: i < j < |regs| ==> regs[j].id != id
    ensures LocatorsFor(regs, id) != [] && LocatorsFor(regs, id)[|LocatorsFor(regs, id)| - 1] == regs[i].loc
    decreases |regs|
  {
    if i < |regs| - 1 {
      var init := regs[..|regs| - 1];
      LocatorsForLast(init, id, i);
    }
  }

  /** The first registration for `id` starts its list. */
  lemma {:induction false} LocatorsForFirst(regs: seq<Registration>, id: ResourceIdentifier, i: nat)
    requires i < |regs| && regs[i].id == id
    requires forall j :: 0 <= j < i ==> regs[j].id != id
    ensures LocatorsFor(regs, id) != [] && LocatorsFor(regs, id)[0] == regs[i].loc
    decreases |regs|
  {
    var init := regs[..|regs| - 1];
    if i < |regs| - 1 {
      LocatorsForFirst(init, id, i);
    } else {
      LocatorsForNone(init, id);
    }
  }

  lemma {:induction false} LocatorsForNone(regs: seq<Registration>, id: ResourceIdentifier)
    requires forall j :: 0 <= j < |regs| ==> regs[j].id != id
    ensures LocatorsFor(regs, id) == []
    decreases |regs|
  {
    if regs != [] {
      LocatorsForNone(regs[..|regs| - 1], id);
    }
  }

  /** `getResource`'s choice from a locator list: the last one (the most
      recently registered), or the first when `fromBegin`. */
  function ChooseLocator(locators: seq<ResourceLocator>, fromBegin: bool): (loc: ResourceLocator)
    requires locators != []
    ensures loc in locators
    ensures fromBegin ==> loc == locators[0]
    ensures !fromBegin ==> loc == locators[|locators| - 1]
  {
    if fromBegin then locators[0] else locators[|locators| - 1]
  }

  /** Layering: when a later loader registers `id`, the default lookup yields
      that loader's locator; when `id` was unknown before an earlier loader
      registered it, the `fromBegin` lookup yields the earlier loader's. */
  lemma LaterLoaderOverrides(m: ResourcesMap, early: seq<Registration>, late: seq<Registration>,
                             id: ResourceIdentifier, i: nat, j: nat)
    requires i < |early| && early[i].id == id && forall k :: 0 <= k < i ==> early[k].id != id
    requires j < |late| && late[j].id == id && forall k :: j < k < |late| ==> late[k].id != id
    requires id !in m
    ensures var l := ListAt(AddAll(AddAll(m, early), late), id);
              l != [] && ChooseLocator(l, false) == late[j].loc && ChooseLocator(l, true) == early[i].loc
  {
    AddAllLocators(m, early, id);
    AddAllLocators(AddAll(m, early), late, id);
    LocatorsForFirst(early, id, i);
    LocatorsForLast(late, id, j);
  }
}
