// Copying the recorded files into the reproducer, and redirecting the replayed program to the copies.
module PackMap {
  import opened Decimal
  import opened Wrappers

  /** Regular files by path; the contents are of any kind. */
  type FileSystem<!C> = map<string, C>

  predicate StartsWith(s: string, prefix: string) {
    prefix <= s
  }

  /** Paths that are never packed; a prefix test on the text, so "/devel" is skipped too. */
  predicate Skipped(p: string) {
    StartsWith(p, "/dev") || StartsWith(p, "/sys") || StartsWith(p, "/proc")
  }

  /** Exactly the texts that begin with one of three directories' names are skipped. */
  lemma SkippedMeans(p: string)
    ensures Skipped(p) <==> (|p| >= 4 && (p[..4] == "/dev" || p[..4] == "/sys")) || (|p| >= 5 && p[..5] == "/proc")
  {
  }

  predicate Packable<C>(fs: FileSystem<C>, p: string) {
    !Skipped(p) && p in fs
  }

  /** The part after the last slash. */
  function Filename(p: string): (name: string)
    ensures '/' !in name
  {
    if p == [] || p[|p| - 1] == '/' then [] else Filename(p[..|p| - 1]) + [p[|p| - 1]]
  }

  /** The file name without its last extension; a leading dot does not start one. */
  function Stem(p: string): string {
    var name := Filename(p);
    if name == "." || name == ".." then name else DropExtension(name, |name|)
  }

  /** Cuts name at its last dot below `end`, unless that dot comes first. */
  function DropExtension(name: string, end: nat): string
    requires end <= |name|
  {
    if end <= 1 then name else if name[end - 1] == '.' then name[..end - 1] else DropExtension(name, end - 1)
  }

  /** The file name is what follows the last slash. */
  lemma {:induction false} FilenameMeans(p: string)
    ensures '/' !in Filename(p)
    ensures Filename(p) == p || exists n: nat :: n < |p| && p[n] == '/' && Filename(p) == p[n + 1..]
  {
    if p != [] && p[|p| - 1] != '/' {
      var n := |p| - 1;
      FilenameMeans(p[..n]);
      if Filename(p[..n]) == p[..n] {
        assert p == p[..n] + [p[n]];
      } else {
        var m: nat :| m < n && p[..n][m] == '/' && Filename(p[..n]) == p[..n][m + 1..];
        assert p[m + 1..] == p[..n][m + 1..] + [p[n]];
      }
    } else if p != [] {
      assert p[|p| - 1] == '/' && p[|p|..] == [];
    }
  }

  /** The stem loses the last extension: a text without dots after a dot that does not come first. */
  lemma StemMeans(p: string, base: string, extension: string)
    requires Filename(p) == base + ['.'] + extension && '.' !in extension && Filename(p) != ".."
    ensures Stem(p) == if base == "" then Filename(p) else base
  {
    DropsExtension(base, extension, |extension|);
  }

  lemma {:induction false} DropsExtension(base: string, extension: string, k: nat)
    requires '.' !in extension && k <= |extension|
    ensures var name := base + ['.'] + extension;
            DropExtension(name, |base| + 1 + k) == if base == "" then name else base
  {
    var name := base + ['.'] + extension;
    if k > 0 {
      assert name[|base| + k] == extension[k - 1];
      DropsExtension(base, extension, k - 1);
    } else {
      assert name[|base|] == '.' && name[..|base|] == base;
    }
  }

  /** Without a dot nothing is dropped. */
  lemma StemWithoutDot(p: string)
    requires '.' !in Filename(p)
    ensures Stem(p) == Filename(p)
    ensures Filename("/..") == ".." && Stem("/..") == ".."
  {
    FilenameAfterSlash("", "..");
    assert "/.." == "" + ['/'] + "..";
    NothingToDrop(Filename(p), |Filename(p)|);
  }

  lemma {:induction false} NothingToDrop(name: string, end: nat)
    requires end <= |name| && '.' !in name
    ensures DropExtension(name, end) == name
  {
    if end > 1 { NothingToDrop(name, end - 1); }
  }

  function PackedName(counter: nat, p: string): string {
    ToDecimal(counter) + "_" + Stem(p)
  }

  /** Names made with different counters differ, whatever the stems; none of them is "0". */
  lemma PackedNamesDiffer(i: nat, p: string, j: nat, q: string)
    requires i != j
    ensures PackedName(i, p) != PackedName(j, q)
    ensures PackedName(i, p) != "0"
  {
    var a, b := ToDecimal(i), ToDecimal(j);
    assert PackedName(i, p)[|a|] == '_' && PackedName(j, q)[|b|] == '_';
    if PackedName(i, p) == PackedName(j, q) {
      assert |a| == |b| by {
        assert forall k :: 0 <= k < |a| ==> PackedName(i, p)[k] == a[k] && IsDigit(a[k]);
        assert forall k :: 0 <= k < |b| ==> PackedName(j, q)[k] == b[k] && IsDigit(b[k]);
      }
      assert a == PackedName(i, p)[..|a|] && b == PackedName(j, q)[..|b|];
      DecimalInjective(i, j);
    }
  }

  /** The packed directory with its map, as `pack` builds it. */
  class Packer<C(==)> {
    const fs: FileSystem<C>
    var packed: map<string, C>
    var copies: seq<string>
    ghost var sources: seq<string>
    var replayMap: map<string, string>
    var counter: nat

    /** Every mapped path names a copy with its own contents, and no two copies share a name. */
    ghost predicate Valid()
      reads this
    {
      && counter >= 1 && |copies| == |sources| == counter && copies[0] == "0"
      && (forall i :: 1 <= i < counter ==> copies[i] == PackedName(i, sources[i]))
      && (forall i, j :: 0 <= i < j < counter ==> copies[i] != copies[j])
      && (forall n :: n in packed <==> n in copies)
      && (forall p :: p in replayMap ==>
            p in fs && replayMap[p] in packed && packed[replayMap[p]] == fs[p])
    }

    /** The executable becomes "0". */
    constructor (fs: FileSystem<C>, executable: string)
      requires executable in fs
      ensures Valid() && this.fs == fs && counter == 1 && replayMap == map[executable := "0"]
    {
      this.fs := fs;
      packed, copies, replayMap, counter := map["0" := fs[executable]], ["0"], map[executable := "0"], 1;
      sources := [executable];
    }

    /** One recorded path. */
    method PackOne(cand: string)
      requires Valid()
      modifies this
      ensures Valid()
      ensures if Packable(fs, cand)
              then var name := ToDecimal(old(counter)) + "_" + Stem(cand);
                   counter == old(counter) + 1 && copies == old(copies) + [name] && replayMap == old(replayMap)[cand := name]
              else counter == old(counter) && copies == old(copies) && replayMap == old(replayMap)
      ensures forall n :: n in old(packed) ==> n in packed && packed[n] == old(packed)[n]
    {
      if StartsWith(cand, "/dev") || StartsWith(cand, "/sys") || StartsWith(cand, "/proc") {
        return;
      }
      if cand !in fs {
        return;
      }
      var newFileName := ToDecimal(counter) + "_" + Stem(cand);
      forall i | 0 <= i < counter ensures copies[i] != newFileName {
        PackedNamesDiffer(counter, cand, counter + 1, cand);
        if i > 0 { PackedNamesDiffer(counter, cand, i, sources[i]); }
      }
      counter := counter + 1;
      packed := packed[newFileName := fs[cand]];
      copies, sources := copies + [newFileName], sources + [cand];
      replayMap := replayMap[cand := newFileName];
    }

    /** The loop over the recorded file list: the map ends up with exactly the executable and the packable paths. */
    method PackAll(recorded: seq<string>)
      requires Valid()
      modifies this
      ensures Valid()
      ensures replayMap.Keys == old(replayMap.Keys) + Chosen(fs, recorded)
      ensures counter == old(counter) + Count(fs, recorded)
    {
      for i := 0 to |recorded|
        invariant Valid()
        invariant replayMap.Keys == old(replayMap.Keys) + Chosen(fs, recorded[..i])
        invariant counter == old(counter) + Count(fs, recorded[..i])
      {
        hide Valid, PackedName;
        PackOne(recorded[i]);
        assert recorded[..i + 1][..i] == recorded[..i];
      }
      assert recorded[..|recorded|] == recorded;
    }
  }

  /** The paths of the list that are copied. */
  function Chosen<C>(fs: FileSystem<C>, recorded: seq<string>): set<string> {
    if recorded == [] then {}
    else
      var last := recorded[|recorded| - 1];
      Chosen(fs, recorded[..|recorded| - 1]) + if Packable(fs, last) then {last} else {}
  }

  /** How many entries of the list are copied, repeats included. */
  function Count<C>(fs: FileSystem<C>, recorded: seq<string>): nat {
    if recorded == [] then 0
    else Count(fs, recorded[..|recorded| - 1]) + if Packable(fs, recorded[|recorded| - 1]) then 1 else 0
  }

  lemma {:induction false} ChosenMeans<C>(fs: FileSystem<C>, recorded: seq<string>, p: string)
    ensures p in Chosen(fs, recorded) <==> p in recorded && Packable(fs, p)
  {
    if recorded != [] {
      var n := |recorded| - 1;
      ChosenMeans(fs, recorded[..n], p);
      assert recorded == recorded[..n] + [recorded[n]];
    }
  }

  // ---- Redirection ----

  /** std::string::find(...) != npos */
  predicate Contains(s: string, part: string)
  {
    part <= s || (s != [] && Contains(s[1..], part))
  }

  predicate OccursAt(s: string, part: string, i: nat) {
    i <= |s| && part <= s[i..]
  }

  lemma {:induction false} ContainsMeans(s: string, part: string)
    ensures Contains(s, part) <==> exists i: nat :: OccursAt(s, part, i)
  {
    if part <= s {
      assert OccursAt(s, part, 0) by { assert s[0..] == s; }
    } else if s != [] {
      ContainsMeans(s[1..], part);
      if Contains(s[1..], part) {
        var i: nat :| OccursAt(s[1..], part, i);
        assert s[1..][i..] == s[i + 1..];
        assert OccursAt(s, part, i + 1);
      }
      if i: nat :| OccursAt(s, part, i) {
        assert s[0..] == s;
        assert i > 0;
        assert s[1..][i - 1..] == s[i..];
        assert OccursAt(s[1..], part, i - 1);
      }
    }
  }

  /** A path contains its own file name. */
  lemma {:induction false} ContainsSuffix(s: string, k: nat)
    requires k <= |s|
    ensures Contains(s, s[k..])
  {
    if k > 0 {
      ContainsSuffix(s[1..], k - 1);
      assert s[1..][k - 1..] == s[k..];
    }
  }

  lemma {:induction false} FilenameIsSuffix(p: string)
    ensures |Filename(p)| <= |p| && p[|p| - |Filename(p)|..] == Filename(p)
  {
    if p != [] && p[|p| - 1] != '/' {
      FilenameIsSuffix(p[..|p| - 1]);
    }
  }

  /** The order in which the map is walked: each key once. */
  ghost predicate Enumerates(keys: seq<string>, replayMap: map<string, string>) {
    && (forall k :: k in replayMap <==> k in keys)
    && (forall i, j :: 0 <= i < j < |keys| ==> keys[i] != keys[j])
  }

  /** The first key whose text contains the library's file name. */
  function FirstHit(keys: seq<string>, lib: string): (i: nat)
    ensures i <= |keys|
    ensures forall j :: 0 <= j < i ==> !Contains(keys[j], lib)
    ensures i < |keys| ==> Contains(keys[i], lib)
  {
    if keys == [] || Contains(keys[0], lib) then 0 else 1 + FirstHit(keys[1..], lib)
  }

  /** The recorded path whose copy an access to `name` is sent to. */
  function Target(keys: seq<string>, name: string): Option<string> {
    if Contains(name, ".so") then
      var i := FirstHit(keys, Filename(name));
      if i < |keys| then Some(keys[i]) else None
    else if name in keys then Some(name)
    else None
  }

  /** `findSuitableReplacement`: the path of the copy, or the empty string. */
  method FindSuitableReplacement(basePath: string, replayMap: map<string, string>, keys: seq<string>, name: string)
    returns (replacement: string)
    requires Enumerates(keys, replayMap)
    ensures match Target(keys, name)
            case None => replacement == ""
            case Some(key) => key in replayMap && replacement == basePath + "/" + replayMap[key]
  {
    if Contains(name, ".so") {
      var libName := Filename(name);
      for i := 0 to |keys|
        invariant forall j :: 0 <= j < i ==> !Contains(keys[j], libName)
      {
        var cand := keys[i];
        if Contains(cand, libName) {
          assert FirstHit(keys, libName) == i;
          return basePath + "/" + replayMap[cand];
        }
      }
      return "";
    }
    if name in replayMap {
      return basePath + "/" + replayMap[name];
    }
    replacement := "";
  }

  /** After packing, an access goes to the contents of its target: for a path without ".so" that is the path itself. */
  lemma RedirectsToContents<C>(fs: FileSystem<C>, packed: map<string, C>, replayMap: map<string, string>, keys: seq<string>, name: string)
    requires Enumerates(keys, replayMap)
    requires forall p :: p in replayMap ==> p in fs && replayMap[p] in packed && packed[replayMap[p]] == fs[p]
    ensures var target := Target(keys, name);
            && (target.Some? ==> target.value in replayMap && packed[replayMap[target.value]] == fs[target.value])
            && (!Contains(name, ".so") ==> (target.Some? <==> name in replayMap) && (target.Some? ==> target.value == name))
            && (Contains(name, ".so") ==> (target.None? <==> forall p :: p in replayMap ==> !Contains(p, Filename(name))))
            && (Contains(name, ".so") && target.Some? ==> Contains(target.value, Filename(name)))
  {
    var i := FirstHit(keys, Filename(name));
    if i < |keys| { assert keys[i] in keys; }
  }

  /** A mapped path always has a target, because it contains its own file name. */
  lemma MappedPathIsRedirected(replayMap: map<string, string>, keys: seq<string>, name: string)
    requires Enumerates(keys, replayMap) && name in replayMap
    ensures Target(keys, name).Some?
  {
    FilenameIsSuffix(name);
    ContainsSuffix(name, |name| - |Filename(name)|);
    var i :| 0 <= i < |keys| && keys[i] == name;
    assert Contains(keys[i], Filename(name));
  }

  /** A mapped path is redirected to itself for sure exactly when it has no ".so" in it or no earlier key contains its file name. */
  lemma LibraryHitIsItself(replayMap: map<string, string>, keys: seq<string>, n: nat)
    requires Enumerates(keys, replayMap) && n < |keys|
    ensures Target(keys, keys[n]) == Some(keys[n])
            <==> !Contains(keys[n], ".so") || forall j :: 0 <= j < n ==> !Contains(keys[j], Filename(keys[n]))
  {
    var name := keys[n];
    FilenameIsSuffix(name);
    ContainsSuffix(name, |name| - |Filename(name)|);
    var i := FirstHit(keys, Filename(name));
    assert Contains(keys[n], Filename(name));
    assert i <= n;
    if i < n { assert keys[i] != keys[n]; }
  }

  lemma {:induction false} ContainsInTail(s: string, k: nat, part: string)
    requires k <= |s| && Contains(s[k..], part)
    ensures Contains(s, part)
  {
    if k == 0 {
      assert s[0..] == s;
    } else {
      assert s[1..][k - 1..] == s[k..];
      ContainsInTail(s[1..], k - 1, part);
    }
  }

  /** Two recorded libraries with the same file name: the second is replaced by the first. */
  lemma SameLibraryNameIsMixedUp(dir: string, dir': string, lib: string)
    requires dir != dir' && '/' !in lib && Contains(lib, ".so")
    ensures var keys := [dir + ['/'] + lib, dir' + ['/'] + lib];
            keys[0] != keys[1] && Target(keys, keys[1]) == Some(keys[0])
  {
    hide Contains, Filename;
    var first, second := dir + ['/'] + lib, dir' + ['/'] + lib;
    assert first[|dir| + 1..] == lib && second[|dir'| + 1..] == lib;
    if first == second { SplitUnique(dir, '/', lib, dir', lib); }
    FilenameAfterSlash(dir', lib);
    ContainsSuffix(first, |dir| + 1);
    ContainsInTail(second, |dir'| + 1, ".so");
    assert FirstHit([first, second], lib) == 0;
  }

  lemma {:induction false} FilenameAfterSlash(dir: string, name: string)
    requires '/' !in name
    ensures Filename(dir + ['/'] + name) == name
  {
    var p := dir + ['/'] + name;
    if name == [] {
      assert p[|p| - 1] == '/';
    } else {
      var init := name[..|name| - 1];
      assert p[..|p| - 1] == dir + ['/'] + init;
      assert p[|p| - 1] == name[|name| - 1];
      FilenameAfterSlash(dir, init);
    }
  }
}
