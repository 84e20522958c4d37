/**
  The build tool that finds the classes a set of root classes needs: it reads the constant pool of a
  class file, takes every string that may be a class name, and follows those that are found on the
  class path. Compared with reachability in the graph of class names.
 */
module ClosureFinder {
  import opened Wrappers

  // --------------------------------------------------------------------------
  // Class files on disk

  /** A constant of the pool, as far as it matters: its text, or how much it skips. */
  datatype Const = Utf8(text: string) | NameIndex | FourBytes | EightBytes | Unknown

  /** A file: too short to have a constant count, or without the signature, or with a count and constants. */
  datatype File = TooShort | NotClass | Pool(count: nat, constants: seq<Const>)

  /** The surroundings: files by their paths, the class path, and the platform. */
  datatype Env = Env(disk: map<string, File>, components: seq<string>, separator: char, isWindows: bool,
                     isIdentifierPart: char -> bool)

  function PathOf(env: Env, component: string, name: string): string {
    component + [env.separator] + name + ".class"
  }

  /** The part of a name behind the last separator. */
  function BaseName(env: Env, name: string): string {
    if name == [] then ""
    else if name[|name| - 1] == env.separator then ""
    else BaseName(env, name[..|name| - 1]) + [name[|name| - 1]]
  }

  function Upper(c: char): char {
    if 'a' <= c <= 'z' then ((c as int) - 32) as char else c
  }

  predicate EqualIgnoringCase(s: string, t: string) {
    |s| == |t| && forall i :: 0 <= i < |s| ==> Upper(s[i]) == Upper(t[i])
  }

  /** Windows reports these under any directory. */
  predicate IsDevice(env: Env, name: string) {
    var base := BaseName(env, name);
    && env.isWindows
    && (EqualIgnoringCase(base, "AUX") || EqualIgnoringCase(base, "NUL") || EqualIgnoringCase(base, "CON"))
  }

  lemma {:induction false} BaseNameLast(env: Env, dir: string, base: string)
    requires env.separator !in base
    ensures BaseName(env, base) == base && BaseName(env, dir + [env.separator] + base) == base
    decreases |base|
  {
    if base == [] {
      assert (dir + [env.separator] + base)[|dir|] == env.separator;
    } else {
      var front, last := base[..|base| - 1], base[|base| - 1];
      BaseNameLast(env, dir, front);
      assert base == front + [last];
      var name := dir + [env.separator] + base;
      assert name[..|name| - 1] == dir + [env.separator] + front && name[|name| - 1] == last;
    }
  }

  /** On Windows a class is taken for a device exactly if its name behind all separators is one of three, in any
      case. */
  lemma DeviceIff(env: Env, dir: string, base: string)
    requires env.separator !in base
    ensures var device := env.isWindows && exists d :: d in {"AUX", "NUL", "CON"} && EqualIgnoringCase(base, d);
            (IsDevice(env, base) <==> device) && (IsDevice(env, dir + [env.separator] + base) <==> device)
  {
    BaseNameLast(env, dir, base);
  }

  /** The first component of the class path that holds the class; a device is not found at all. */
  function Lookup(env: Env, name: string): Option<string> {
    LookupFrom(env, name, 0)
  }

  function LookupFrom(env: Env, name: string, i: nat): Option<string>
    requires i <= |env.components|
    decreases |env.components| - i
  {
    if i == |env.components| then None
    else if PathOf(env, env.components[i], name) in env.disk then
      (if IsDevice(env, name) then None else Some(env.components[i]))
    else LookupFrom(env, name, i + 1)
  }

  /** A class found has its file there, and no earlier component has one. */
  lemma {:induction false} LookupFirst(env: Env, name: string, i: nat)
    requires i <= |env.components|
    ensures var r := LookupFrom(env, name, i);
            r.Some? <==>
              && !IsDevice(env, name)
              && exists k :: i <= k < |env.components| && PathOf(env, env.components[k], name) in env.disk
    ensures var r := LookupFrom(env, name, i);
            r.Some? ==> exists k :: i <= k < |env.components| && r.value == env.components[k]
                          && PathOf(env, env.components[k], name) in env.disk
                          && forall j :: i <= j < k ==> PathOf(env, env.components[j], name) !in env.disk
    decreases |env.components| - i
  {
    if i < |env.components| && PathOf(env, env.components[i], name) !in env.disk {
      LookupFirst(env, name, i + 1);
    }
  }

  predicate Found(env: Env, name: string) {
    Lookup(env, name).Some?
  }

  lemma FoundOnDisk(env: Env, name: string)
    requires Found(env, name)
    ensures PathOf(env, Lookup(env, name).value, name) in env.disk && Lookup(env, name).value in env.components
  {
    LookupFirst(env, name, 0);
  }

  // --------------------------------------------------------------------------
  // The strings of a constant pool

  predicate MayBeClassName(env: Env, s: string) {
    forall i :: 0 <= i < |s| ==> env.isIdentifierPart(s[i]) || s[i] == '/'
  }

  function AsPath(env: Env, s: string): string {
    seq(|s|, i requires 0 <= i < |s| => if s[i] == '/' then env.separator else s[i])
  }

  /** The count is read as a signed number of 16 bits. */
  function SignedCount(count: nat): int {
    if count % 0x1_0000 < 0x8000 then count % 0x1_0000 else count % 0x1_0000 - 0x1_0000
  }

  /** The strings at their indices, from index cp on; nothing if the file ends or has an unknown constant before
      index n. Constants of eight bytes take two indices. */
  function Strings(constants: seq<Const>, cp: int, n: int): Option<map<int, string>> {
    if cp >= n then Some(map[])
    else if constants == [] || constants[0] == Unknown then None
    else
      match Strings(constants[1..], if constants[0] == EightBytes then cp + 2 else cp + 1, n)
      case None => None
      case Some(m) => Some(if constants[0].Utf8? then map[cp := constants[0].text] + m else m)
  }

  /** What reading a class file gives: a failure that ends the program, or the strings to follow. */
  datatype Outcome = Crash | Texts(strings: map<int, string>)

  function ReadPool(file: File): Outcome {
    match file
    case Pool(count, constants) =>
      var n := SignedCount(count);
      if n < 0 then Crash
      else (match Strings(constants, 1, n) case None => Texts(map[]) case Some(m) => Texts(m))
    case _ => Texts(map[])
  }

  function OutcomeOf(env: Env, name: string): Outcome
    requires Found(env, name)
  {
    FoundOnDisk(env, name);
    ReadPool(env.disk[PathOf(env, Lookup(env, name).value, name)])
  }

  // --------------------------------------------------------------------------
  // The graph of class names

  /** Reading the class a ends the program. */
  predicate Bad(env: Env, a: string) {
    Found(env, a) && OutcomeOf(env, a) == Crash
  }

  /** The class a has a string that may be the class name b. */
  ghost predicate Refers(env: Env, a: string, b: string)
  {
    Found(env, a) && OutcomeOf(env, a).Texts? && exists k :: RefersAt(env, OutcomeOf(env, a).strings, k, b)
  }

  predicate RefersAt(env: Env, strings: map<int, string>, k: int, b: string) {
    k in strings && MayBeClassName(env, strings[k]) && b == AsPath(env, strings[k])
  }

  /** A chain of classes that are found, each referring to the next. */
  ghost predicate Chain(env: Env, p: seq<string>)
  {
    && (forall k :: 0 <= k < |p| ==> Found(env, p[k]))
    && (forall k :: 0 <= k < |p| - 1 ==> Refers(env, p[k], p[k + 1]))
  }

  ghost predicate Reaches(env: Env, a: string, b: string)
  {
    exists p :: |p| > 0 && p[0] == a && p[|p| - 1] == b && Chain(env, p)
  }

  lemma ReachesSelf(env: Env, a: string)
    requires Found(env, a)
    ensures Reaches(env, a, a)
  {
    assert Chain(env, [a]);
  }

  lemma ReachesNext(env: Env, a: string, b: string, c: string)
    requires Found(env, a) && Refers(env, a, b) && Reaches(env, b, c)
    ensures Reaches(env, a, c)
  {
    var p :| |p| > 0 && p[0] == b && p[|p| - 1] == c && Chain(env, p);
    var q := [a] + p;
    assert forall k :: 0 < k < |q| ==> q[k] == p[k - 1];
    assert Chain(env, q);
  }

  // --------------------------------------------------------------------------
  // There are finitely many names to visit

  predicate Shaped(p: string, component: string) {
    |p| >= |component| + 7
  }

  /** The name in a path below a component. */
  function NameIn(p: string, component: string): string
    requires Shaped(p, component)
  {
    p[|component| + 1..|p| - 6]
  }

  ghost function Universe(env: Env): set<string> {
    set p, c | p in env.disk.Keys && c in env.components && Shaped(p, c) :: NameIn(p, c)
  }

  lemma FoundInUniverse(env: Env, name: string)
    requires Found(env, name)
    ensures name in Universe(env)
  {
    FoundOnDisk(env, name);
    var c := Lookup(env, name).value;
    var p := PathOf(env, c, name);
    assert NameIn(p, c) == name;
  }

  // --------------------------------------------------------------------------
  // Reading a constant pool

  lemma {:induction false} StringKeys(constants: seq<Const>, cp: int, n: int)
    ensures Strings(constants, cp, n).Some? ==> forall k :: k in Strings(constants, cp, n).value ==> cp <= k < n
    decreases |constants|
  {
    if cp < n && constants != [] && constants[0] != Unknown {
      StringKeys(constants[1..], if constants[0] == EightBytes then cp + 2 else cp + 1, n);
    }
  }

  function Joined(m: map<int, string>, rest: Option<map<int, string>>): Option<map<int, string>> {
    match rest
    case None => None
    case Some(r) => Some(m + r)
  }

  /** One constant more. */
  lemma StringsStep(constants: seq<Const>, cp: int, n: int, m: map<int, string>)
    requires cp < n && constants != [] && constants[0] != Unknown
    ensures var next := if constants[0] == EightBytes then cp + 2 else cp + 1;
            var m' := if constants[0].Utf8? then m[cp := constants[0].text] else m;
            Joined(m, Strings(constants, cp, n)) == Joined(m', Strings(constants[1..], next, n))
  {
    var next := if constants[0] == EightBytes then cp + 2 else cp + 1;
    var rest := Strings(constants[1..], next, n);
    if rest.Some? && constants[0].Utf8? {
      assert m + (map[cp := constants[0].text] + rest.value) == m[cp := constants[0].text] + rest.value;
    }
  }

  /** The loop over the constants: ok is false if the file ends or a constant is not known. */
  method ReadConstants(constants: seq<Const>, numConsts: int) returns (ok: bool, strings: map<int, string>)
    ensures ok <==> Strings(constants, 1, numConsts).Some?
    ensures ok ==> strings == Strings(constants, 1, numConsts).value
  {
    strings := map[];
    var cpIndex, rest := 1, constants;
    JoinedNothing(Strings(constants, 1, numConsts));
    while cpIndex < numConsts
      invariant Strings(constants, 1, numConsts) == Joined(strings, Strings(rest, cpIndex, numConsts))
    {
      if rest == [] || rest[0] == Unknown {
        return false, strings;
      }
      StringsStep(rest, cpIndex, numConsts, strings);
      var c := rest[0];
      rest := rest[1..];
      match c {
        case Utf8(text) => strings := strings[cpIndex := text];
        case EightBytes => cpIndex := cpIndex + 1;
        case _ =>
      }
      cpIndex := cpIndex + 1;
    }
    assert strings + map[] == strings;
    ok := true;
  }

  lemma JoinedNothing(rest: Option<map<int, string>>)
    ensures Joined(map[], rest) == rest
  {
    if rest.Some? {
      assert map[] + rest.value == rest.value;
    }
  }

  /** The strings of a file, all at indices below n; with n = -1 the array for them cannot be made. */
  method ReadFile(file: File) returns (n: int, strings: map<int, string>)
    ensures n < 0 <==> ReadPool(file) == Crash
    ensures n >= 0 ==> ReadPool(file) == Texts(strings) && forall k :: k in strings ==> 0 <= k < n
  {
    n, strings := 0, map[];
    match file {
      case Pool(count, constants) =>
        n := SignedCount(count);
        if n >= 0 {
          var ok, texts := ReadConstants(constants, n);
          StringKeys(constants, 1, n);
          if ok {
            strings := texts;
          }
        }
      case _ =>
    }
  }

  // --------------------------------------------------------------------------
  // What the strings are

  /** Words joined by a character. */
  function Join(parts: seq<string>, c: char): string
    requires parts != []
  {
    if |parts| == 1 then parts[0] else parts[0] + [c] + Join(parts[1..], c)
  }

  /** The characters are of the kind that identifiers are made of. */
  predicate IsWord(env: Env, w: string) {
    forall i :: 0 <= i < |w| ==> env.isIdentifierPart(w[i]) && w[i] != '/'
  }

  /** Words of a name; a name of a class in a package has several. */
  ghost predicate IsWords(env: Env, parts: seq<string>)
  {
    parts != [] && forall i :: 0 <= i < |parts| ==> IsWord(env, parts[i])
  }

  /** The string spells the class b: both consist of the same words, joined by slashes in the one and by the platform's
      separator in the other. */
  ghost predicate Spells(env: Env, s: string, b: string)
  {
    exists parts :: SpellsBy(env, parts, s, b)
  }

  ghost predicate SpellsBy(env: Env, parts: seq<string>, s: string, b: string)
  {
    IsWords(env, parts) && s == Join(parts, '/') && b == Join(parts, env.separator)
  }

  lemma {:induction false} JoinedName(env: Env, parts: seq<string>)
    requires IsWords(env, parts)
    ensures MayBeClassName(env, Join(parts, '/')) && AsPath(env, Join(parts, '/')) == Join(parts, env.separator)
    decreases |parts|
  {
    assert IsWord(env, parts[0]);
    WordPath(env, parts[0]);
    if |parts| > 1 {
      var rest := parts[1..];
      forall i | 0 <= i < |rest| ensures IsWord(env, rest[i]) {
        assert IsWord(env, parts[i + 1]);
      }
      JoinedName(env, rest);
      PathParts(env, parts[0], Join(rest, '/'));
    }
  }

  lemma WordPath(env: Env, w: string)
    requires IsWord(env, w)
    ensures MayBeClassName(env, w) && AsPath(env, w) == w
  {
  }

  lemma PathParts(env: Env, w: string, s: string)
    requires IsWord(env, w)
    ensures AsPath(env, w + "/" + s) == w + [env.separator] + AsPath(env, s)
    ensures MayBeClassName(env, w + "/" + s) <==> MayBeClassName(env, s)
  {
    var x := w + "/" + s;
    forall i | 0 <= i < |s| ensures x[|w| + 1 + i] == s[i] {
    }
    if MayBeClassName(env, x) {
      forall i | 0 <= i < |s| ensures env.isIdentifierPart(s[i]) || s[i] == '/' {
        assert x[|w| + 1 + i] == s[i];
      }
    }
  }

  /** The words of a string that may be a class name. */
  lemma {:induction false} NameParts(env: Env, s: string) returns (parts: seq<string>)
    requires MayBeClassName(env, s)
    ensures IsWords(env, parts) && Join(parts, '/') == s
    decreases |s|
  {
    if '/' !in s {
      parts := [s];
    } else {
      var k := FirstSlash(s);
      var w, rest := s[..k], s[k + 1..];
      assert s == w + "/" + rest;
      PathParts(env, w, rest);
      var more := NameParts(env, rest);
      parts := [w] + more;
      assert parts[1..] == more;
      forall i | 0 <= i < |parts| ensures IsWord(env, parts[i]) {
        assert i > 0 ==> IsWord(env, more[i - 1]);
      }
    }
  }

  lemma {:induction false} FirstSlash(s: string) returns (k: nat)
    requires '/' in s
    ensures k < |s| && s[k] == '/' && forall i :: 0 <= i < k ==> s[i] != '/'
    decreases |s|
  {
    if s[0] == '/' {
      k := 0;
    } else {
      var j := FirstSlash(s[1..]);
      k := j + 1;
      forall i | 0 <= i < k ensures s[i] != '/' {
        assert i > 0 ==> s[1..][i - 1] == s[i];
      }
    }
  }

  /** The strings followed are exactly those that spell a class. */
  lemma SpellsIff(env: Env, s: string, b: string)
    ensures MayBeClassName(env, s) && b == AsPath(env, s) <==> Spells(env, s, b)
  {
    if MayBeClassName(env, s) && b == AsPath(env, s) {
      var parts := NameParts(env, s);
      JoinedName(env, parts);
      assert SpellsBy(env, parts, s, b);
    }
    if Spells(env, s, b) {
      var parts :| SpellsBy(env, parts, s, b);
      JoinedName(env, parts);
    }
  }

  /** A string with any other character spells no class. */
  lemma OtherCharactersSpellNothing(env: Env, s: string, i: nat, b: string)
    requires i < |s| && s[i] != '/' && !env.isIdentifierPart(s[i])
    ensures !Spells(env, s, b)
  {
    SpellsIff(env, s, b);
  }

  // --------------------------------------------------------------------------
  // Where the strings are

  /** The index of constant i: the first is 1, and constants of eight bytes take two. */
  function IndexOf(constants: seq<Const>, i: nat): (k: nat)
    requires i <= |constants|
    ensures k > i
  {
    if i == 0 then 1 else IndexOf(constants, i - 1) + if constants[i - 1] == EightBytes then 2 else 1
  }

  /** All constants with indices below n are there, and known. */
  ghost predicate Readable(constants: seq<Const>, n: int)
  {
    forall i :: 0 <= i <= |constants| && IndexOf(constants, i) < n ==> i < |constants| && constants[i] != Unknown
  }

  lemma {:induction false} IndexShift(constants: seq<Const>, i: nat)
    requires constants != [] && i < |constants|
    ensures IndexOf(constants, i + 1) == IndexOf(constants[1..], i) + if constants[0] == EightBytes then 2 else 1
    decreases i
  {
    if i > 0 {
      IndexShift(constants, i - 1);
      assert constants[1..][i - 1] == constants[i];
    }
  }

  ghost predicate ReadableFrom(constants: seq<Const>, cp: int, n: int)
  {
    Readable(constants, n - cp + 1)
  }

  lemma ReadableShift(constants: seq<Const>, cp: int, n: int)
    requires cp < n && constants != [] && constants[0] != Unknown
    ensures var next := cp + if constants[0] == EightBytes then 2 else 1;
            ReadableFrom(constants, cp, n) <==> ReadableFrom(constants[1..], next, n)
  {
    var rest := constants[1..];
    var next := cp + if constants[0] == EightBytes then 2 else 1;
    forall i | 0 <= i <= |rest|
      ensures IndexOf(constants, i + 1) == IndexOf(rest, i) + next - cp
      ensures i < |rest| ==> rest[i] == constants[i + 1]
    {
      IndexShift(constants, i);
    }
    if ReadableFrom(constants, cp, n) {
      forall i | 0 <= i <= |rest| && IndexOf(rest, i) < n - next + 1 ensures i < |rest| && rest[i] != Unknown {
        assert IndexOf(constants, i + 1) < n - cp + 1;
      }
    }
    if ReadableFrom(rest, next, n) {
      forall i | 0 <= i <= |constants| && IndexOf(constants, i) < n - cp + 1
        ensures i < |constants| && constants[i] != Unknown
      {
        if i > 0 {
          assert IndexOf(rest, i - 1) < n - next + 1;
        }
      }
    }
  }

  function NextIndex(c: Const, cp: int): int {
    if c == EightBytes then cp + 2 else cp + 1
  }

  /** Strings are read if and only if all constants are there and known. */
  lemma {:induction false} StringsReadable(constants: seq<Const>, cp: int, n: int)
    ensures Strings(constants, cp, n).Some? <==> ReadableFrom(constants, cp, n)
    decreases |constants|
  {
    if cp < n {
      if constants == [] || constants[0] == Unknown {
        assert IndexOf(constants, 0) < n - cp + 1;
      } else {
        ReadableShift(constants, cp, n);
        StringsReadable(constants[1..], NextIndex(constants[0], cp), n);
      }
    }
  }

  /** Every text is read, at its index. */
  lemma {:induction false} TextIsRead(constants: seq<Const>, cp: int, n: int, i: nat)
    requires Strings(constants, cp, n).Some? && i < |constants| && constants[i].Utf8?
    requires cp - 1 + IndexOf(constants, i) < n
    ensures var k, m := cp - 1 + IndexOf(constants, i), Strings(constants, cp, n).value;
            k in m && m[k] == constants[i].text
    decreases |constants|
  {
    var rest, next := constants[1..], NextIndex(constants[0], cp);
    StringKeys(rest, next, n);
    if i > 0 {
      IndexShift(constants, i - 1);
      TextIsRead(rest, next, n, i - 1);
    }
  }

  /** Nothing else is read. */
  lemma {:induction false} OnlyTextsAreRead(constants: seq<Const>, cp: int, n: int, k: int) returns (i: nat)
    requires Strings(constants, cp, n).Some? && k in Strings(constants, cp, n).value
    ensures i < |constants| && k == cp - 1 + IndexOf(constants, i) < n
    ensures constants[i] == Utf8(Strings(constants, cp, n).value[k])
    decreases |constants|
  {
    var rest, next := constants[1..], NextIndex(constants[0], cp);
    StringKeys(rest, next, n);
    if k in Strings(rest, next, n).value {
      var j := OnlyTextsAreRead(rest, next, n, k);
      i := j + 1;
      IndexShift(constants, j);
    } else {
      i := 0;
    }
  }

  // --------------------------------------------------------------------------
  // The graph, from the files

  /** The file of a class that is found. */
  function FileOf(env: Env, a: string): File
    requires Found(env, a)
  {
    FoundOnDisk(env, a);
    env.disk[PathOf(env, Lookup(env, a).value, a)]
  }

  /** A file with a constant count below 2^15 whose constants up to the count are all there and known. */
  ghost predicate Sane(f: File)
  {
    f.Pool? && f.count % 0x1_0000 < 0x8000 && Readable(f.constants, f.count % 0x1_0000)
  }

  /** Constant i, with an index below the count, is this text. */
  predicate HasText(f: File, i: nat, s: string)
    requires f.Pool?
  {
    i < |f.constants| && f.constants[i] == Utf8(s) && IndexOf(f.constants, i) < f.count % 0x1_0000
  }

  /** A class refers to b exactly if it is found, its file is sane, and one of its texts spells b. */
  lemma RefersIff(env: Env, a: string, b: string)
    ensures Refers(env, a, b) <==>
              && Found(env, a) && Sane(FileOf(env, a))
              && exists i: nat, s :: HasText(FileOf(env, a), i, s) && Spells(env, s, b)
  {
    if Found(env, a) && FileOf(env, a).Pool? {
      var f := FileOf(env, a);
      StringsReadable(f.constants, 1, f.count % 0x1_0000);
      if Refers(env, a, b) {
        RefersHasText(env, a, b);
      }
      if Sane(f) && exists i: nat, s :: HasText(f, i, s) && Spells(env, s, b) {
        var i: nat, s :| HasText(f, i, s) && Spells(env, s, b);
        TextIsRead(f.constants, 1, f.count % 0x1_0000, i);
        SpellsIff(env, s, b);
        assert RefersAt(env, OutcomeOf(env, a).strings, IndexOf(f.constants, i), b);
      }
    }
  }

  lemma RefersHasText(env: Env, a: string, b: string)
    requires Refers(env, a, b)
    ensures FileOf(env, a).Pool? && Sane(FileOf(env, a))
    ensures exists i: nat, s :: HasText(FileOf(env, a), i, s) && Spells(env, s, b)
  {
    var f := FileOf(env, a);
    var k :| RefersAt(env, OutcomeOf(env, a).strings, k, b);
    var n := f.count % 0x1_0000;
    StringsReadable(f.constants, 1, n);
    var i := OnlyTextsAreRead(f.constants, 1, n, k);
    var s := OutcomeOf(env, a).strings[k];
    SpellsIff(env, s, b);
    assert HasText(f, i, s);
  }

  /** Reading a class ends the program exactly if its constant count is 2^15 or more. */
  lemma BadIff(env: Env, a: string)
    ensures Bad(env, a) <==> Found(env, a) && FileOf(env, a).Pool? && FileOf(env, a).count % 0x1_0000 >= 0x8000
  {
  }

  /** Two classes below one component of the class path, the second in a package and named by the first. */
  function TwoClasses(isPart: char -> bool): Env {
    Env(map["c/A.class" := Pool(2, [Utf8("p/B")]), "c/p/B.class" := Pool(1, [])], ["c"], '/', false, isPart)
  }

  lemma TwoFound(isPart: char -> bool)
    ensures var env := TwoClasses(isPart);
            && Lookup(env, "A") == Some("c") && Lookup(env, "p/B") == Some("c")
            && FileOf(env, "A") == Pool(2, [Utf8("p/B")])
  {
    var env := TwoClasses(isPart);
    assert PathOf(env, "c", "A") == "c/A.class" && PathOf(env, "c", "p/B") == "c/p/B.class";
  }

  lemma TwoSpelled(env: Env)
    requires env.isIdentifierPart('p') && env.isIdentifierPart('B') && env.separator == '/'
    ensures Spells(env, "p/B", "p/B")
  {
    assert Join(["B"], '/') == "B" && ["p", "B"][1..] == ["B"];
    assert SpellsBy(env, ["p", "B"], "p/B", "p/B");
  }

  /** The second is followed. */
  lemma PackageExample(isPart: char -> bool)
    requires isPart('p') && isPart('B')
    ensures Found(TwoClasses(isPart), "A") && Reaches(TwoClasses(isPart), "A", "p/B")
  {
    var env := TwoClasses(isPart);
    TwoFound(isPart);
    TwoSpelled(env);
    var f := FileOf(env, "A");
    assert IndexOf(f.constants, 0) == 1 && IndexOf(f.constants, 1) == 2;
    assert HasText(f, 0, "p/B");
    RefersIff(env, "A", "p/B");
    ReachesSelf(env, "p/B");
    ReachesNext(env, "A", "p/B", "p/B");
  }

  // --------------------------------------------------------------------------
  // The search

  /** Visited classes are found, each at the first component that holds it. */
  ghost predicate Sound(env: Env, v: map<string, string>)
  {
    forall n :: n in v ==> Lookup(env, n) == Some(v[n])
  }

  /** From v to v' only classes were added that can be reached from a. */
  ghost predicate Grown(env: Env, a: string, v: map<string, string>, v': map<string, string>)
  {
    v.Keys <= v'.Keys && forall n :: n in v' && n !in v ==> Reaches(env, a, n)
  }

  /** Everything the class refers to has been visited. */
  ghost predicate Done(env: Env, v: map<string, string>, n: string)
  {
    !Bad(env, n) && forall t :: Refers(env, n, t) && Found(env, t) ==> t in v
  }

  /** The classes added from v to v' are done, but for one. */
  ghost predicate AllDone(env: Env, v: map<string, string>, v': map<string, string>, but: set<string>)
  {
    forall n :: n in v' && n !in v && n !in but ==> Done(env, v', n)
  }

  ghost predicate SomeBad(env: Env, v: map<string, string>, v': map<string, string>)
  {
    exists n :: n in v' && n !in v && Bad(env, n)
  }

  /** A search from something that a refers to is part of the search from a. */
  lemma GrownFurther(env: Env, a: string, b: string, v: map<string, string>, v': map<string, string>,
                     v'': map<string, string>)
    requires Found(env, a) && Refers(env, a, b) && Grown(env, a, v, v') && Grown(env, b, v', v'')
    ensures Grown(env, a, v, v'')
  {
    forall n | n in v'' && n !in v ensures Reaches(env, a, n) {
      if n !in v' {
        ReachesNext(env, a, b, n);
      }
    }
  }

  lemma DoneFurther(env: Env, v: map<string, string>, v': map<string, string>, v'': map<string, string>,
                    but: set<string>)
    requires v'.Keys <= v''.Keys && AllDone(env, v, v', but) && AllDone(env, v', v'', {})
    ensures AllDone(env, v, v'', but)
  {
    forall n | n in v'' && n !in v && n !in but ensures Done(env, v'', n) {
      if n in v' {
        assert Done(env, v', n);
      }
    }
  }

  /** What a search from a achieves: it adds reachable classes only, a itself if it is found, and unless it hits a
      class that ends the program, everything those refer to. */
  ghost predicate Searched(env: Env, a: string, v: map<string, string>, v': map<string, string>, crashed: bool)
  {
    && Sound(env, v') && Grown(env, a, v, v')
    && (Found(env, a) ==> a in v')
    && (crashed <==> SomeBad(env, v, v'))
    && (!crashed ==> AllDone(env, v, v', {}))
  }

  /** During the search from a: all classes added but a itself are done. */
  ghost predicate Visiting(env: Env, a: string, v: map<string, string>, v': map<string, string>)
  {
    && Found(env, a) && a in v' && a !in v
    && Sound(env, v') && Grown(env, a, v, v') && AllDone(env, v, v', {a})
  }

  /** The strings below index s were followed. */
  ghost predicate Followed(env: Env, strings: map<int, string>, s: int, v: map<string, string>)
  {
    forall k, b :: k < s && RefersAt(env, strings, k, b) && Found(env, b) ==> b in v
  }

  lemma NothingAdded(env: Env, a: string, v: map<string, string>)
    requires Sound(env, v)
    ensures (Found(env, a) ==> a in v) ==> Searched(env, a, v, v, false)
  {
  }

  lemma FirstAdded(env: Env, a: string, v: map<string, string>)
    requires Sound(env, v) && Found(env, a) && a !in v
    ensures Visiting(env, a, v, v[a := Lookup(env, a).value])
  {
    ReachesSelf(env, a);
  }

  lemma CrashesHere(env: Env, a: string, v: map<string, string>, v': map<string, string>)
    requires Visiting(env, a, v, v') && Bad(env, a)
    ensures Searched(env, a, v, v', true)
  {
  }

  lemma FollowedSkip(env: Env, strings: map<int, string>, s: int, v: map<string, string>)
    requires Followed(env, strings, s, v) && !(s in strings && MayBeClassName(env, strings[s]))
    ensures Followed(env, strings, s + 1, v)
  {
  }

  lemma FollowedNext(env: Env, a: string, strings: map<int, string>, s: int, b: string,
                     v: map<string, string>, v': map<string, string>, v'': map<string, string>, crashed: bool)
    requires Visiting(env, a, v, v') && OutcomeOf(env, a) == Texts(strings) && Followed(env, strings, s, v')
    requires RefersAt(env, strings, s, b) && Searched(env, b, v', v'', crashed)
    ensures crashed ==> Searched(env, a, v, v'', true)
    ensures !crashed ==> Visiting(env, a, v, v'') && Followed(env, strings, s + 1, v'')
  {
    GrownFurther(env, a, b, v, v', v'');
    if crashed {
      var n :| n in v'' && n !in v' && Bad(env, n);
      assert n !in v;
    } else {
      DoneFurther(env, v, v', v'', {a});
    }
  }

  lemma AllFollowed(env: Env, a: string, strings: map<int, string>, n: int, v: map<string, string>,
                    v': map<string, string>)
    requires Visiting(env, a, v, v') && OutcomeOf(env, a) == Texts(strings) && Followed(env, strings, n, v')
    requires forall k :: k in strings ==> 0 <= k < n
    ensures Searched(env, a, v, v', false)
  {
    assert Done(env, v', a);
  }

  // --------------------------------------------------------------------------
  // All roots

  /** A root is given as the name of a class file; its class name ends at the first ".class". */
  function RootName(root: string): Option<string> {
    if |root| < 6 then None
    else if root[..6] == ".class" then Some("")
    else match RootName(root[1..]) case None => None case Some(r) => Some([root[0]] + r)
  }

  /** ".class" stands at position i. */
  predicate SuffixAt(root: string, i: nat) {
    i + 6 <= |root| && root[i..i + 6] == ".class"
  }

  lemma SuffixShift(root: string, i: nat)
    requires root != []
    ensures SuffixAt(root[1..], i) <==> SuffixAt(root, i + 1)
  {
    if i + 7 <= |root| {
      assert root[1..][i..i + 6] == root[i + 1..i + 7];
    }
  }

  ghost predicate NoSuffixBefore(root: string, k: nat)
  {
    forall i: nat :: i < k ==> !SuffixAt(root, i)
  }

  lemma NoSuffixShift(root: string, k: nat)
    requires root != [] && !SuffixAt(root, 0) && NoSuffixBefore(root[1..], k)
    ensures NoSuffixBefore(root, k + 1)
  {
    forall i: nat | i < k + 1 ensures !SuffixAt(root, i) {
      if i > 0 {
        SuffixShift(root, i - 1);
      }
    }
  }

  lemma {:induction false} RootNameFirst(root: string)
    ensures match RootName(root)
            case None => NoSuffixBefore(root, |root|)
            case Some(n) =>
              |n| <= |root| && n == root[..|n|] && SuffixAt(root, |n|) && NoSuffixBefore(root, |n|)
    decreases |root|
  {
    if |root| >= 6 && root[..6] != ".class" {
      RootNameFirst(root[1..]);
      match RootName(root[1..])
      case None => NoSuffixShift(root, |root| - 1);
      case Some(r) =>
        SuffixShift(root, |r|);
        NoSuffixShift(root, |r|);
    }
  }

  /** The class name of a root is what stands before the first ".class"; without one there is none. */
  lemma RootNameIff(root: string, n: string)
    ensures RootName(root) == Some(n) <==>
              |n| <= |root| && n == root[..|n|] && SuffixAt(root, |n|) && NoSuffixBefore(root, |n|)
    ensures RootName(root).None? <==> forall i: nat :: !SuffixAt(root, i)
  {
    RootNameFirst(root);
  }

  ghost predicate ReachedBy(env: Env, root: string, n: string)
  {
    RootName(root).Some? && Reaches(env, RootName(root).value, n)
  }

  /** The class n can be reached from one of the first c roots. */
  ghost predicate Reached(env: Env, roots: seq<string>, c: nat, n: string)
    requires c <= |roots|
  {
    exists i :: 0 <= i < c && ReachedBy(env, roots[i], n)
  }

  /** A root without ".class", or a class in reach whose constants cannot be read: the program ends. */
  ghost predicate Fails(env: Env, roots: seq<string>)
  {
    || (exists i :: 0 <= i < |roots| && RootName(roots[i]).None?)
    || (exists n :: Reached(env, roots, |roots|, n) && Bad(env, n))
  }

  /** The classes visited are closed under references, so they include all that can be reached from one of them. */
  lemma {:induction false} ClosedChain(env: Env, v: map<string, string>, p: seq<string>)
    requires AllDone(env, map[], v, {}) && |p| > 0 && p[0] in v && Chain(env, p)
    ensures p[|p| - 1] in v
    decreases |p|
  {
    if |p| > 1 {
      assert Done(env, v, p[0]);
      assert Refers(env, p[0], p[0 + 1]);
      var q := p[1..];
      ChainTail(env, p);
      ClosedChain(env, v, q);
    }
  }

  lemma ChainTail(env: Env, p: seq<string>)
    requires |p| > 1 && Chain(env, p)
    ensures Chain(env, p[1..])
  {
    var q := p[1..];
    forall k | 0 <= k < |q| - 1 ensures Refers(env, q[k], q[k + 1]) {
      assert Refers(env, p[k + 1], p[k + 1 + 1]);
    }
  }

  ghost predicate RootVisited(env: Env, root: string, v: map<string, string>)
  {
    RootName(root).Some? && (Found(env, RootName(root).value) ==> RootName(root).value in v)
  }

  /** After c roots: only what is reached from them, all of it done, and the roots themselves. */
  ghost predicate Complete(env: Env, roots: seq<string>, c: nat, v: map<string, string>)
    requires c <= |roots|
  {
    Sound(env, v) && AllDone(env, map[], v, {}) && OnlyReached(env, roots, c, v) && RootsVisited(env, roots, c, v)
  }

  ghost predicate OnlyReached(env: Env, roots: seq<string>, c: nat, v: map<string, string>)
    requires c <= |roots|
  {
    forall n :: n in v ==> Reached(env, roots, c, n)
  }

  ghost predicate RootsVisited(env: Env, roots: seq<string>, c: nat, v: map<string, string>)
    requires c <= |roots|
  {
    forall i :: 0 <= i < c ==> RootVisited(env, roots[i], v)
  }

  lemma CompleteExact(env: Env, roots: seq<string>, c: nat, v: map<string, string>, n: string)
    requires c <= |roots| && Complete(env, roots, c, v)
    ensures n in v <==> Reached(env, roots, c, n)
  {
    if Reached(env, roots, c, n) {
      var i :| 0 <= i < c && ReachedBy(env, roots[i], n);
      assert RootVisited(env, roots[i], v);
      ClosedReach(env, v, RootName(roots[i]).value, n);
    }
  }

  lemma ClosedReach(env: Env, v: map<string, string>, a: string, n: string)
    requires AllDone(env, map[], v, {}) && (Found(env, a) ==> a in v) && Reaches(env, a, n)
    ensures n in v
  {
    var p :| |p| > 0 && p[0] == a && p[|p| - 1] == n && Chain(env, p);
    ClosedChain(env, v, p);
  }

  lemma CompleteFine(env: Env, roots: seq<string>, v: map<string, string>)
    requires Complete(env, roots, |roots|, v)
    ensures !Fails(env, roots)
  {
    forall n | Reached(env, roots, |roots|, n) ensures !Bad(env, n) {
      CompleteExact(env, roots, |roots|, v, n);
      assert Done(env, v, n);
    }
    forall i | 0 <= i < |roots| ensures RootName(roots[i]).Some? {
      assert RootVisited(env, roots[i], v);
    }
  }

  lemma ReachedKept(env: Env, roots: seq<string>, c: nat, d: nat, n: string)
    requires c <= d <= |roots| && Reached(env, roots, c, n)
    ensures Reached(env, roots, d, n)
  {
    var k :| 0 <= k < c && ReachedBy(env, roots[k], n);
  }

  /** All classes visited after one root more are reached from the roots so far. */
  lemma RootReached(env: Env, roots: seq<string>, i: nat, v: map<string, string>, v': map<string, string>, n: string)
    requires i < |roots| && RootName(roots[i]).Some? && Grown(env, RootName(roots[i]).value, v, v')
    requires n in v' && (n in v ==> Reached(env, roots, i, n))
    ensures Reached(env, roots, i + 1, n)
  {
    if n in v {
      ReachedKept(env, roots, i, i + 1, n);
    } else {
      assert ReachedBy(env, roots[i], n);
    }
  }

  lemma RootFails(env: Env, roots: seq<string>, i: nat, v: map<string, string>, v': map<string, string>)
    requires i < |roots| && RootName(roots[i]).Some?
    requires Grown(env, RootName(roots[i]).value, v, v') && SomeBad(env, v, v')
    ensures Fails(env, roots)
  {
    var n :| n in v' && n !in v && Bad(env, n);
    RootReached(env, roots, i, v, v', n);
    ReachedKept(env, roots, i + 1, |roots|, n);
  }

  lemma MoreReached(env: Env, roots: seq<string>, i: nat, v: map<string, string>, v': map<string, string>)
    requires i < |roots| && OnlyReached(env, roots, i, v)
    requires RootName(roots[i]).Some? && Grown(env, RootName(roots[i]).value, v, v')
    ensures OnlyReached(env, roots, i + 1, v')
  {
    forall n | n in v' ensures Reached(env, roots, i + 1, n) {
      RootReached(env, roots, i, v, v', n);
    }
  }

  lemma MoreVisited(env: Env, roots: seq<string>, i: nat, v: map<string, string>, v': map<string, string>)
    requires i < |roots| && RootsVisited(env, roots, i, v) && v.Keys <= v'.Keys && RootVisited(env, roots[i], v')
    ensures RootsVisited(env, roots, i + 1, v')
  {
    forall k | 0 <= k < i + 1 ensures RootVisited(env, roots[k], v') {
      assert k < i ==> RootVisited(env, roots[k], v);
    }
  }

  /** One root more. */
  lemma RootDone(env: Env, roots: seq<string>, i: nat, v: map<string, string>, v': map<string, string>)
    requires i < |roots| && Complete(env, roots, i, v) && RootName(roots[i]).Some?
    requires Searched(env, RootName(roots[i]).value, v, v', false)
    ensures Complete(env, roots, i + 1, v')
  {
    MoreReached(env, roots, i, v, v');
    DoneFurther(env, map[], v, v', {});
    MoreVisited(env, roots, i, v, v');
  }

  class Finder {
    const env: Env
    const roots: seq<string>
    var visited: map<string, string>
    var computed: bool

    constructor (env: Env, roots: seq<string>)
      ensures this.env == env && this.roots == roots && !computed && visited == map[]
    {
      this.env := env;
      this.roots := roots;
      visited := map[];
      computed := false;
    }

    method LookupClassFile(name: string) returns (base: Option<string>)
      ensures base == Lookup(env, name)
    {
      for i := 0 to |env.components|
        invariant Lookup(env, name) == LookupFrom(env, name, i)
      {
        if PathOf(env, env.components[i], name) in env.disk {
          if IsDevice(env, name) {
            return None;
          }
          return Some(env.components[i]);
        }
      }
      return None;
    }

    /** Visits a class and all it refers to. It ends on cyclic references too, since every class visited leaves one
        fewer to visit. */
    method ComputeClosure(name: string) returns (crashed: bool)
      requires Sound(env, visited)
      modifies this`visited
      ensures Searched(env, name, old(visited), visited, crashed)
      decreases Universe(env) - visited.Keys, 0
    {
      NothingAdded(env, name, visited);
      if name in visited {
        return false;
      }
      var base := LookupClassFile(name);
      if base == None {
        return false;
      }
      FoundInUniverse(env, name);
      FoundOnDisk(env, name);
      FirstAdded(env, name, visited);
      visited := visited[name := base.value];
      var n, strings := ReadFile(env.disk[PathOf(env, base.value, name)]);
      if n < 0 {
        CrashesHere(env, name, old(visited), visited);
        return true;
      }
      crashed := WalkStrings(name, old(visited), n, strings);
    }

    /** Follows the strings of a class that is being visited. */
    method WalkStrings(name: string, ghost v: map<string, string>, n: nat, strings: map<int, string>)
      returns (crashed: bool)
      requires Visiting(env, name, v, visited) && OutcomeOf(env, name) == Texts(strings)
      requires forall k :: k in strings ==> 0 <= k < n
      modifies this`visited
      ensures Searched(env, name, v, visited, crashed)
      decreases Universe(env) - visited.Keys, 1
    {
      var s := 0;
      while s < n
        invariant 0 <= s <= n && old(visited.Keys) <= visited.Keys
        invariant Visiting(env, name, v, visited) && Followed(env, strings, s, visited)
        decreases n - s
      {
        if s in strings && MayBeClassName(env, strings[s]) {
          var next := AsPath(env, strings[s]);
          ghost var before := visited;
          crashed := ComputeClosure(next);
          assert RefersAt(env, strings, s, next);
          FollowedNext(env, name, strings, s, next, v, before, visited, crashed);
          if crashed {
            return true;
          }
        } else {
          FollowedSkip(env, strings, s, visited);
        }
        s := s + 1;
      }
      AllFollowed(env, name, strings, n, v, visited);
      return false;
    }

    /** The classes that can be reached from the roots, each with the first component of the class path that holds it;
        computed once. The computation fails exactly if a root or a class in reach is malformed. */
    method Find() returns (crashed: bool)
      requires !computed ==> visited == map[]
      modifies this
      ensures computed && (old(computed) ==> visited == old(visited) && !crashed)
      ensures !old(computed) ==> (crashed <==> Fails(env, roots))
      ensures !old(computed) && !crashed ==> forall n :: n in visited <==> Reached(env, roots, |roots|, n)
      ensures !old(computed) && !crashed ==> forall n :: n in visited ==> Lookup(env, n) == Some(visited[n])
    {
      if computed {
        return false;
      }
      computed := true;
      for i := 0 to |roots|
        invariant computed && Complete(env, roots, i, visited)
      {
        var name := RootName(roots[i]);
        if name == None {
          return true;
        }
        ghost var before := visited;
        crashed := ComputeClosure(name.value);
        if crashed {
          RootFails(env, roots, i, before, visited);
          return true;
        }
        RootDone(env, roots, i, before, visited);
      }
      forall n ensures n in visited <==> Reached(env, roots, |roots|, n) {
        CompleteExact(env, roots, |roots|, visited, n);
      }
      CompleteFine(env, roots, visited);
      return false;
    }
  }
}
