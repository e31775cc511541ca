/**
  client/FileSyncSource.cpp: a file that arrives is renamed until its name is free, unless a file
  of the same content is found on the way.
 */
module FileNaming {
  import opened Bytes
  import opened Numerals

  // ---------------------------------------------------------------- names

  /** `rfind(".")`, or the length if there is no dot. */
  function LastDot(name: string): (pos: nat)
    ensures pos <= |name|
    ensures pos < |name| ==> name[pos] == '.'
  {
    if name == [] then 0
    else if name[|name| - 1] == '.' then |name| - 1
    else
      var pos := LastDot(name[..|name| - 1]);
      if pos < |name| - 1 then pos else |name|
  }

  predicate HasDot(name: string) {
    LastDot(name) < |name|
  }

  lemma {:induction false} NoDotBehind(name: string, i: nat)
    requires i < |name| && (HasDot(name) ==> LastDot(name) < i)
    ensures name[i] != '.'
  {
    if i < |name| - 1 {
      NoDotBehind(name[..|name| - 1], i);
    }
  }

  /** `addNumericSuffix`: before the last dot of the full name, or at its end. */
  function AddNumericSuffix(name: string, n: nat): string {
    name[..LastDot(name)] + "_" + PrintTwo(n) + name[LastDot(name)..]
  }

  /** The names tried one after the other. */
  function NameAt(original: string, k: nat): string {
    if k == 0 then original else AddNumericSuffix(original, k)
  }

  /** The suffix, an underscore and the number, goes before the extension, or to the end of a name without one. */
  lemma SuffixPlaced(front: string, extension: string, n: nat)
    requires '.' !in extension && n > 0
    ensures NameAt(front + "." + extension, n) == front + "_" + PrintTwo(n) + "." + extension
    ensures '.' !in front ==> NameAt(front, n) == front + "_" + PrintTwo(n)
  {
    hide PrintTwo;
    LastDotAppend(front, "." + extension);
    LastDotAppend(".", extension);
    NoDot(extension);
    NoDot(front);
    var name := front + "." + extension;
    assert name == front + ("." + extension);
    assert name[..|front|] == front && name[|front|..] == "." + extension;
    Associative(front + "_" + PrintTwo(n), ".", extension);
    assert front[..|front|] == front && front[|front|..] == "";
  }

  lemma {:induction false} NoDot(name: string)
    ensures '.' !in name ==> LastDot(name) == |name|
  {
    if name != [] {
      NoDot(name[..|name| - 1]);
    }
  }

  /** The number can be read off the name, so no name is tried twice. */
  lemma NamesDiffer(original: string, j: nat, k: nat)
    requires j != k
    ensures NameAt(original, j) != NameAt(original, k)
  {
    if j == 0 || k == 0 {
      assert |AddNumericSuffix(original, j + k)| > |original|;
    } else {
      NumberRead(original, j);
      NumberRead(original, k);
    }
  }

  lemma NumberRead(original: string, n: nat)
    ensures var name := AddNumericSuffix(original, n);
      LastDot(original) + 1 <= |name| && ReadDigits(name[LastDot(original) + 1..], 0) == n
  {
    var pos := LastDot(original);
    var name := AddNumericSuffix(original, n);
    assert name[pos + 1..] == PrintTwo(n) + original[pos..];
    ReadPrintedTwo(n, original[pos..]);
  }

  /** `getCompleteName` */
  function CompleteName(dir: string, name: string): string {
    if name != [] && dir <= name then name else dir + "/" + name
  }

  /** `getRelativeName` */
  function RelativeName(dir: string, full: string): string {
    if dir == [] then full
    else if |full| > |dir| + 1 then full[|dir| + 1..]
    else []
  }

  // ---------------------------------------------------------------- the folder

  datatype Added = Added(status: int, name: string)

  type Files = map<string, bytes>

  /** `compareFiles`: the size and the checksum. */
  predicate SameFile(crc: bytes -> int, a: bytes, b: bytes) {
    |a| == |b| && crc(a) == crc(b)
  }

  /** The first `k` names are taken by other files. */
  ghost predicate Taken(files: Files, original: string, content: bytes, crc: bytes -> int, k: nat) {
    forall j | 0 <= j < k :: NameAt(original, j) in files && !SameFile(crc, content, files[NameAt(original, j)])
  }

  /** The search ends at the name `k`. */
  ghost predicate EndsAt(files: Files, original: string, content: bytes, crc: bytes -> int, k: nat) {
    && Taken(files, original, content, crc, k)
    && (NameAt(original, k) in files ==> SameFile(crc, content, files[NameAt(original, k)]))
  }

  function ReturnedName(dir: string, name: string, k: nat): string {
    if k == 0 then name else RelativeName(dir, NameAt(CompleteName(dir, name), k))
  }

  class Folder {
    const dir: string
    var files: Files

    constructor (dir: string, files: Files)
      ensures this.dir == dir && this.files == files
    {
      this.dir, this.files := dir, files;
    }

    /** `saveFile`, which overwrites; `writable` says if the file system lets it. */
    method SaveFile(full: string, content: bytes, writable: bool)
      modifies this
      ensures files == if writable then old(files)[full := content] else old(files)
    {
      if writable {
        files := files[full := content];
      }
    }

    /** `addFile` */
    method AddFile(name: string, content: bytes, crc: bytes -> int, writable: bool) returns (r: Added, ghost k: nat)
      modifies this
      ensures name == [] || content == [] ==> r == Added(500, name) && files == old(files)
      ensures name != [] && content != [] ==>
        var original := if dir <= name then name else dir + "/" + name;
        && EndsAt(old(files), original, content, crc, k)
        && r.name == ReturnedName(dir, name, k)
        && r.status == (if NameAt(original, k) in old(files) then 418 else if writable then 200 else 500)
        && files == AfterAdd(old(files), original, content, k, writable)
    {
      k := 0;
      if name == [] || content == [] {
        return Added(500, name), 0;
      }
      var ret := 200;
      var original := CompleteName(dir, name);
      var fullName := original;
      var i := 1;
      ghost var tried: set<string> := {};
      while fullName in files
        invariant i == k + 1 && fullName == NameAt(original, k) && files == old(files) && ret == 200
        invariant Taken(files, original, content, crc, k)
        invariant tried <= files.Keys && forall f | f in tried :: exists j :: 0 <= j < k && f == NameAt(original, j)
        decreases |files.Keys - tried|
      {
        if SameFile(crc, content, files[fullName]) {
          ret := 418;
          break;
        }
        NotTried(tried, original, k);
        Fewer(files.Keys, tried, fullName);
        tried := tried + {fullName};
        fullName := AddNumericSuffix(original, i);
        i, k := i + 1, k + 1;
      }
      var newName := name;
      if fullName != original {
        newName := RelativeName(dir, fullName);
      }
      if k > 0 {
        NamesDiffer(original, 0, k);
      }
      if ret != 418 {
        SaveFile(fullName, content, writable);
        if !writable {
          ret := 500;
        }
      }
      r := Added(ret, newName);
    }

    /** `updateFile` */
    method UpdateFile(name: string, content: bytes, writable: bool) returns (status: int)
      modifies this
      ensures status == if name == [] || content == [] || !writable then 500 else 200
      ensures files == if status == 200 then AfterUpdate(old(files), dir, name, content) else old(files)
    {
      if name == [] || content == [] {
        return 500;
      }
      SaveFile(CompleteName(dir, name), content, writable);
      status := if writable then 200 else 500;
    }
  }

  lemma NotTried(tried: set<string>, original: string, k: nat)
    requires forall f | f in tried :: exists j :: 0 <= j < k && f == NameAt(original, j)
    ensures NameAt(original, k) !in tried
  {
    if NameAt(original, k) in tried {
      var j :| 0 <= j < k && NameAt(original, k) == NameAt(original, j);
      NamesDiffer(original, j, k);
    }
  }

  lemma Fewer(all: set<string>, tried: set<string>, f: string)
    requires f in all && f !in tried
    ensures |all - (tried + {f})| < |all - tried|
  {
    assert all - tried == (all - (tried + {f})) + {f};
  }

  // ---------------------------------------------------------------- what is stored

  /** The search can end at one name only. */
  lemma EndsOnce(files: Files, original: string, content: bytes, crc: bytes -> int, j: nat, k: nat)
    requires EndsAt(files, original, content, crc, j) && EndsAt(files, original, content, crc, k)
    ensures j == k
  {
    hide NameAt, SameFile;
  }

  /** What the folder holds after `addFile` ended at `k`. */
  function AfterAdd(files: Files, original: string, content: bytes, k: nat, writable: bool): Files {
    if NameAt(original, k) in files || !writable then files else files[NameAt(original, k) := content]
  }

  /** What it holds after `updateFile`. */
  function AfterUpdate(files: Files, dir: string, name: string, content: bytes): Files {
    files[CompleteName(dir, name) := content]
  }

  /** No file that was there is lost or changed. */
  lemma NothingOverwritten(files: Files, original: string, content: bytes, k: nat, writable: bool, f: string)
    requires f in files
    ensures var after := AfterAdd(files, original, content, k, writable);
      f in after && after[f] == files[f]
  {
    hide NameAt;
  }

  /** The content is in the folder under the final name, exactly if the checksum did not confuse it with another. */
  lemma Stored(files: Files, original: string, content: bytes, crc: bytes -> int, k: nat)
    requires EndsAt(files, original, content, crc, k)
    ensures var full := NameAt(original, k);
      var after := AfterAdd(files, original, content, k, true);
      after[full] == content <==> (full in files ==> files[full] == content)
    ensures var full := NameAt(original, k);
      full in files ==> |files[full]| == |content| && crc(files[full]) == crc(content)
  {
    hide NameAt;
  }

  /** The same file arriving again changes nothing: the search ends at the same name. */
  lemma AddedTwice(files: Files, original: string, content: bytes, crc: bytes -> int, k: nat)
    requires EndsAt(files, original, content, crc, k)
    ensures var after := AfterAdd(files, original, content, k, true);
      EndsAt(after, original, content, crc, k) && forall w :: AfterAdd(after, original, content, k, w) == after
  {
    hide NameAt;
    var after := AfterAdd(files, original, content, k, true);
    forall j | 0 <= j < k
      ensures NameAt(original, j) in after && after[NameAt(original, j)] == files[NameAt(original, j)]
    {
      NothingOverwritten(files, original, content, k, true, NameAt(original, j));
    }
  }

  /** `writable` says if the file system lets the file be written. */
  datatype Arrival = Arrival(original: string, content: bytes, k: nat, writable: bool)

  function FinalName(a: Arrival): string {
    NameAt(a.original, a.k)
  }

  /** The file `a` arrives in a folder. */
  ghost predicate ArrivesIn(before: Files, a: Arrival, crc: bytes -> int, after: Files) {
    EndsAt(before, a.original, a.content, crc, a.k) && after == AfterAdd(before, a.original, a.content, a.k, a.writable)
  }

  /** Files arrive one after the other. */
  ghost predicate Arrive(states: seq<Files>, arrivals: seq<Arrival>, crc: bytes -> int) {
    |states| == |arrivals| + 1 &&
    forall i | 0 <= i < |arrivals| :: ArrivesIn(states[i], arrivals[i], crc, states[i + 1])
  }

  /** Files are only ever added. */
  lemma {:induction false} OnlyGrows(states: seq<Files>, arrivals: seq<Arrival>, crc: bytes -> int, i: nat, j: nat,
                                     f: string)
    requires Arrive(states, arrivals, crc) && i <= j < |states| && f in states[i]
    ensures f in states[j] && states[j][f] == states[i][f]
    decreases j - i
  {
    hide EndsAt;
    if i < j {
      assert ArrivesIn(states[i], arrivals[i], crc, states[i + 1]);
      NothingOverwritten(states[i], arrivals[i].original, arrivals[i].content, arrivals[i].k, arrivals[i].writable, f);
      OnlyGrows(states, arrivals, crc, i + 1, j, f);
    }
  }

  /**
    In the end every file that was reported as added is in the folder under its final name, exactly if it was not
    confused with a different file of its size and checksum; contents that do not collide never share a name.
   */
  lemma AllStored(states: seq<Files>, arrivals: seq<Arrival>, crc: bytes -> int, i: nat)
    requires Arrive(states, arrivals, crc) && i < |arrivals|
    requires FinalName(arrivals[i]) in states[i] || arrivals[i].writable
    ensures var a := arrivals[i];
      var end := states[|arrivals|];
      && FinalName(a) in end
      && SameFile(crc, a.content, end[FinalName(a)])
      && (end[FinalName(a)] == a.content <==> (FinalName(a) in states[i] ==> states[i][FinalName(a)] == a.content))
  {
    hide NameAt;
    var a := arrivals[i];
    assert ArrivesIn(states[i], a, crc, states[i + 1]);
    Stored(states[i], a.original, a.content, crc, a.k);
    OnlyGrows(states, arrivals, crc, i + 1, |arrivals|, FinalName(a));
  }

  lemma NamesShared(states: seq<Files>, arrivals: seq<Arrival>, crc: bytes -> int, i: nat, j: nat)
    requires Arrive(states, arrivals, crc) && i < j < |arrivals|
    requires FinalName(arrivals[i]) in states[i] || arrivals[i].writable
    requires FinalName(arrivals[j]) in states[j] || arrivals[j].writable
    ensures FinalName(arrivals[i]) == FinalName(arrivals[j]) ==> SameFile(crc, arrivals[i].content, arrivals[j].content)
  {
    AllStored(states, arrivals, crc, i);
    AllStored(states, arrivals, crc, j);
  }

  // ---------------------------------------------------------------- the returned name

  lemma {:induction false} LastDotAppend(a: string, b: string)
    ensures LastDot(a + b)
         == if HasDot(b) then |a| + LastDot(b) else if HasDot(a) then LastDot(a) else |a| + |b|
  {
    if b == [] {
      assert a + b == a;
    } else {
      var front := b[..|b| - 1];
      assert (a + b)[..|a + b| - 1] == a + front;
      assert (a + b)[|a + b| - 1] == b[|b| - 1];
      LastDotAppend(a, front);
    }
  }

  lemma DotInPath(dir: string, base: string)
    ensures LastDot(dir + "/" + base)
         == if HasDot(base) || !HasDot(dir) then |dir| + 1 + LastDot(base) else LastDot(dir)
  {
    LastDotAppend(dir, "/");
    LastDotAppend(dir + "/", base);
  }

  lemma SuffixInBase(dir: string, base: string, n: nat)
    requires HasDot(base) || !HasDot(dir)
    ensures AddNumericSuffix(dir + "/" + base, n) == dir + "/" + AddNumericSuffix(base, n)
  {
    hide PrintTwo, LastDot;
    DotInPath(dir, base);
    var original, pos := dir + "/" + base, LastDot(base);
    assert original[..|dir| + 1 + pos] == dir + "/" + base[..pos];
    assert original[|dir| + 1 + pos..] == base[pos..];
    var first, last := "_" + PrintTwo(n), base[pos..];
    assert base[..pos] + "_" + PrintTwo(n) + last == base[..pos] + first + last;
    assert original[..|dir| + 1 + pos] + "_" + PrintTwo(n) + last == dir + "/" + base[..pos] + first + last;
    assert dir + "/" + (base[..pos] + first + last) == dir + "/" + base[..pos] + first + last;
  }

  lemma SuffixInFolder(dir: string, base: string, n: nat)
    requires !HasDot(base) && HasDot(dir)
    ensures LastDot(dir) < |dir| && AddNumericSuffix(dir + "/" + base, n)[LastDot(dir)] == '_'
  {
    hide PrintTwo, LastDot;
    DotInPath(dir, base);
    var name, pos := dir + "/" + base, LastDot(dir);
    UnderscoreAt(name[..pos], PrintTwo(n), name[pos..]);
  }

  lemma UnderscoreAt(front: string, number: string, rest: string)
    ensures (front + "_" + number + rest)[|front|] == '_'
  {
  }

  /**
    When the returned name leads back: the file was not renamed, or the suffix went into the part of the
    full name behind the folder, and what is returned does not begin with the folder's name.
   */
  predicate Leads(dir: string, name: string, k: nat) {
    var original := CompleteName(dir, name);
    k == 0 || dir == [] ||
    (dir + "/" <= original &&
     var base := original[|dir| + 1..];
     (HasDot(base) || !HasDot(dir)) && !(dir <= AddNumericSuffix(base, k)))
  }

  /** The name returned to the server denotes the stored file, exactly if it leads back. */
  lemma NameLeadsBack(dir: string, name: string, k: nat)
    requires name != []
    ensures CompleteName(dir, ReturnedName(dir, name, k)) == NameAt(CompleteName(dir, name), k)
      <==> Leads(dir, name, k)
  {
    hide LastDot, AddNumericSuffix;
    if k > 0 && dir != [] {
      var original := CompleteName(dir, name);
      var full := AddNumericSuffix(original, k);
      SuffixLength(original, k);
      assert |original| >= |dir|;
      var rel := full[|dir| + 1..];
      Rejoined(dir, full);
      if dir + "/" <= original {
        var base := original[|dir| + 1..];
        assert original == dir + "/" + base;
        if HasDot(base) || !HasDot(dir) {
          SuffixInBase(dir, base, k);
          assert rel == AddNumericSuffix(base, k);
        } else {
          SuffixInFolder(dir, base, k);
          PrefixAt(dir + "/", full, LastDot(dir));
          assert (dir + "/")[LastDot(dir)] == '.';
        }
      } else {
        NotBelow(dir, name, k);
      }
    } else if k > 0 {
      SuffixLength(CompleteName(dir, name), k);
    }
  }

  /** Cutting the folder's name off and putting it on again gives the same name exactly if it was there. */
  lemma Rejoined(dir: string, full: string)
    requires |full| > |dir| + 1
    ensures dir + "/" + full[|dir| + 1..] == full <==> dir + "/" <= full
  {
  }

  /** A name that only begins like the folder does not come to lie below it by a suffix. */
  lemma NotBelow(dir: string, name: string, n: nat)
    requires dir <= name && !(dir + "/" <= name)
    ensures !(dir + "/" <= AddNumericSuffix(name, n))
  {
    hide LastDot, PrintTwo;
    var pos, full := LastDot(name), AddNumericSuffix(name, n);
    UnderscoreAt(name[..pos], PrintTwo(n), name[pos..]);
    if pos <= |dir| {
      assert full[pos] == '_' && (dir + "/")[pos] != '_';
    } else {
      assert full[|dir|] == name[|dir|];
      Separator(dir, name);
      Separator(dir, full);
    }
  }

  lemma PrefixAt(front: string, name: string, i: nat)
    requires i < |front|
    ensures front <= name ==> i < |name| && name[i] == front[i]
  {
  }

  lemma Separator(dir: string, name: string)
    ensures dir <= name && |name| > |dir| ==> (dir + "/" <= name <==> name[|dir|] == '/')
  {
  }

  /** For a name in an absolute folder: a renamed file is found again if it has a dot, or the folder's path has none. */
  lemma AbsoluteFolder(dir: string, base: string, k: nat)
    requires dir != [] && dir[0] == '/' && base != [] && base[0] != '/'
    ensures Leads(dir, base, k) <==> (k == 0 || HasDot(base) || !HasDot(dir))
  {
    SuffixFirst(base, k);
    hide LastDot, AddNumericSuffix;
    SuffixLength(base, k);
    assert (dir + "/" + base)[|dir| + 1..] == base;
  }

  /** An update that names the file as it was returned replaces that file, under the same condition, and no other. */
  lemma UpdateReplaces(files: Files, dir: string, name: string, k: nat, content: bytes)
    requires name != []
    requires var full := NameAt(CompleteName(dir, name), k);
      full in files && files[full] != content
    ensures var full := NameAt(CompleteName(dir, name), k);
      var after := AfterUpdate(files, dir, ReturnedName(dir, name, k), content);
      && (after[full] == content <==> Leads(dir, name, k))
      && (Leads(dir, name, k) ==> after == files[full := content])
  {
    NameLeadsBack(dir, name, k);
    hide NameAt, CompleteName, ReturnedName, Leads;
  }

  lemma SuffixLength(name: string, n: nat)
    ensures |AddNumericSuffix(name, n)| > |name| + 1
  {
  }

  lemma SuffixFirst(name: string, n: nat)
    requires name != [] && name[0] != '/'
    ensures AddNumericSuffix(name, n)[0] != '/'
  {
  }
}
