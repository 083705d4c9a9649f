/** One forward pass over a branch's archive (indexer/ingest.py): which members become files. */
module Ingest {
  import opened Utf8
  import opened Wrappers
  import opened Languages
  import CorpusHistory
  import Tables

  const MAX_FILE_BYTES: nat := 1_000_000
  const MAX_EXTRACTED_BYTES: nat := 2_000_000_000

  datatype Kind = Regular | HardLink | SymLink | Directory | Special

  /** A member as the archive reader hands it over: `raw` is what reading it gives. */
  datatype Member = Member(name: string, kind: Kind, linkname: string, size: nat, offset: nat, raw: seq<byte>)

  const SNIFF_BYTES: nat := 8192

  /** A NUL among the first bytes marks a binary file. */
  predicate LooksBinary(raw: seq<byte>) {
    0 in raw[..if |raw| < SNIFF_BYTES then |raw| else SNIFF_BYTES]
  }

  // ------------------------------------------------------------------ names

  /** `s.split("/")`. */
  function Components(s: string): (parts: seq<string>)
    ensures parts != []
    decreases |s|
  {
    if s == "" then [""]
    else
      var rest := Components(s[1..]);
      if s[0] == '/' then [""] + rest else [[s[0]] + rest[0]] + rest[1..]
  }

  function Normalised(name: string): Result<string, string> {
    var n := if "./" <= name then name[2..] else name;
    if n == "" then Err("tarball contains a member with an empty name")
    else if n[0] == '/' then Err("tarball member has an absolute name")
    else if ".." in Components(n) then Err("tarball member name contains a '..' component")
    else Ok(n)
  }

  lemma {:induction false} FirstComponent(s: string)
    ensures Components(s)[0] <= s
    ensures |Components(s)| == 1 <==> s == Components(s)[0]
    ensures |Components(s)| > 1 ==> |Components(s)[0]| < |s| && s[|Components(s)[0]|] == '/'
    decreases |s|
  {
    if s != "" {
      FirstComponent(s[1..]);
      assert s == [s[0]] + s[1..];
    }
  }

  function Top(name: string): string {
    Components(name)[0]
  }

  /** The name below the top-level directory; empty for the directory itself. */
  function RelPath(name: string): string {
    FirstComponent(name);
    if name == Top(name) then "" else name[|Top(name)| + 1..]
  }

  // ------------------------------------------------------------------ link targets

  /** `posixpath.normpath` on components: a `..` takes the last name back, if there is one. */
  function Resolve(parts: seq<string>, stack: seq<string>): seq<string>
    decreases |parts|
  {
    if parts == [] then stack
    else if parts[0] == "" || parts[0] == "." then Resolve(parts[1..], stack)
    else if parts[0] == ".." && stack != [] && stack[|stack| - 1] != ".." then Resolve(parts[1..], stack[..|stack| - 1])
    else Resolve(parts[1..], stack + [parts[0]])
  }

  function DropLast(parts: seq<string>): seq<string> {
    if parts == [] then [] else parts[..|parts| - 1]
  }

  /** A relative target that normalises to a path starting with `..`. */
  predicate Escapes(name: string, linkname: string) {
    var resolved := Resolve(DropLast(Components(name)) + Components(linkname), []);
    resolved != [] && resolved[0] == ".."
  }

  /** The depth a walk along the components ends at, counted from the archive root. */
  function Depth(parts: seq<string>): int
    decreases |parts|
  {
    if parts == [] then 0
    else
      var last := parts[|parts| - 1];
      Depth(parts[..|parts| - 1]) + if last == "" || last == "." then 0 else if last == ".." then -1 else 1
  }

  predicate LeavesRoot(parts: seq<string>) {
    exists i | 0 <= i <= |parts| :: Depth(parts[..i]) < 0
  }

  lemma {:induction false} ResolveSnoc(parts: seq<string>, stack: seq<string>)
    requires parts != []
    ensures Resolve(parts, stack) == Resolve([parts[|parts| - 1]], Resolve(parts[..|parts| - 1], stack))
    decreases |parts|
  {
    if |parts| > 1 {
      var tail := parts[1..];
      var next := if parts[0] == "" || parts[0] == "." then stack
        else if parts[0] == ".." && stack != [] && stack[|stack| - 1] != ".." then stack[..|stack| - 1]
        else stack + [parts[0]];
      ResolveSnoc(tail, next);
      assert tail[..|tail| - 1] == parts[..|parts| - 1][1..];
    }
  }

  predicate NoUps(stack: seq<string>) {
    forall p <- stack :: p != ".."
  }

  lemma NothingWalked()
    ensures !LeavesRoot([]) && Resolve([], []) == [] && Depth([]) == 0 && NoUps([])
  {
  }

  lemma DepthSnoc(parts: seq<string>)
    requires parts != []
    ensures var last := parts[|parts| - 1];
      Depth(parts) == Depth(parts[..|parts| - 1]) + if last == "" || last == "." then 0 else if last == ".." then -1 else 1
  {
  }

  /** One more component keeps a stack without `..`, unless it leaves the root, and keeps one that starts with `..`. */
  lemma StepOfWalk(part: string, stack: seq<string>)
    ensures var next := Resolve([part], stack);
      && (NoUps(stack) && !(part == ".." && stack == []) ==>
            && NoUps(next)
            && |next| == |stack| + if part == "" || part == "." then 0 else if part == ".." then -1 else 1)
      && (part == ".." && stack == [] ==> next == [".."])
      && (stack != [] && stack[0] == ".." ==> next != [] && next[0] == "..")
  {
    assert [part][1..] == [];
    assert NoUps(stack) && stack != [] ==> stack[|stack| - 1] != ".." by {
      assert stack != [] ==> stack[|stack| - 1] in stack;
    }
  }

  /** While the walk stays in the archive, the stack holds no `..` and is as high as the walk is deep. */
  lemma {:induction false} ResolveTracksDepth(parts: seq<string>)
    ensures !LeavesRoot(parts) ==> NoUps(Resolve(parts, [])) && |Resolve(parts, [])| == Depth(parts)
    ensures LeavesRoot(parts) ==> Resolve(parts, []) != [] && Resolve(parts, [])[0] == ".."
    decreases |parts|
  {
    hide *;
    if parts == [] {
      NothingWalked();
    } else {
      var front, last := parts[..|parts| - 1], parts[|parts| - 1];
      ResolveTracksDepth(front);
      ResolveSnoc(parts, []);
      LeavesRootSnoc(parts);
      DepthSnoc(parts);
      StepOfWalk(last, Resolve(front, []));
    }
  }

  lemma {:induction false} LeavesRootSnoc(parts: seq<string>)
    requires parts != []
    ensures LeavesRoot(parts) <==> LeavesRoot(parts[..|parts| - 1]) || Depth(parts) < 0
  {
    hide Depth;
    var front := parts[..|parts| - 1];
    assert parts[..|parts|] == parts;
    if LeavesRoot(front) {
      var i :| 0 <= i <= |front| && Depth(front[..i]) < 0;
      assert front[..i] == parts[..i];
    }
    if LeavesRoot(parts) {
      var i :| 0 <= i <= |parts| && Depth(parts[..i]) < 0;
      assert i < |parts| ==> front[..i] == parts[..i];
    }
  }

  /** A link is refused exactly when its walk, from its own directory, leaves the archive at some step. */
  lemma EscapeIsLeavingTheRoot(name: string, linkname: string)
    ensures Escapes(name, linkname) <==> LeavesRoot(DropLast(Components(name)) + Components(linkname))
  {
    var parts := DropLast(Components(name)) + Components(linkname);
    ResolveTracksDepth(parts);
    if !LeavesRoot(parts) && Resolve(parts, []) != [] {
      assert Resolve(parts, [])[0] in Resolve(parts, []);
    }
  }

  // ------------------------------------------------------------------ which members are files

  function NameOf(m: Member): string {
    match Normalised(m.name) case Ok(n) => n case Err(_) => ""
  }

  function PathOf(m: Member): string {
    RelPath(NameOf(m))
  }

  /** A regular file outside `.git` and small enough to read: its path counts as seen. */
  predicate Eligible(m: Member) {
    m.kind == Regular && ".git" !in Components(PathOf(m)) && m.size <= MAX_FILE_BYTES
  }

  predicate FirstOfItsPath(members: seq<Member>, i: nat)
    requires i < |members|
  {
    forall j | 0 <= j < i && Eligible(members[j]) :: PathOf(members[j]) != PathOf(members[i])
  }

  /** Member `i` becomes a file: the first eligible member of its path, if that one is text. */
  predicate Chosen(members: seq<Member>, i: nat)
    requires i < |members|
  {
    Eligible(members[i]) && FirstOfItsPath(members, i) && !LooksBinary(members[i].raw) && Decode(members[i].raw).Some?
  }

  function WithoutNul(s: string): string
    decreases |s|
  {
    if s == "" then "" else (if s[0] == '\0' then "" else [s[0]]) + WithoutNul(s[1..])
  }

  function FileOf(m: Member, langOf: string -> Option<string>): ParsedFile {
    ParsedFile(PathOf(m), langOf(PathOf(m)), m.size, if Decode(m.raw).Some? then WithoutNul(Decode(m.raw).value) else "")
  }

  lemma {:induction false} NulShortens(s: string)
    ensures |Encode(WithoutNul(s))| <= |Encode(s)|
    ensures |Encode(WithoutNul(s))| == |Encode(s)| <==> '\0' !in s
    decreases |s|
  {
    if s != "" {
      NulShortens(s[1..]);
      assert s == [s[0]] + s[1..];
      var head := if s[0] == '\0' then "" else [s[0]];
      EncodeConcat(head, WithoutNul(s[1..]));
      assert [s[0]][1..] == "";
      assert Encode([s[0]]) == EncodeChar(s[0]) + Encode("");
      assert Encode("") == [];
    }
  }

  /**
   For a member whose declared size is the length of its data, the stored size is the
   length of the stored content if and only if its text holds no NUL.
   */
  lemma SizeIsLengthExactlyWhen(m: Member, langOf: string -> Option<string>)
    requires m.size == |m.raw| && Decode(m.raw).Some?
    ensures FileOf(m, langOf).size == |Encode(FileOf(m, langOf).content)| <==> '\0' !in Decode(m.raw).value
  {
    EncodeInvertsDecode(m.raw);
    NulShortens(Decode(m.raw).value);
  }

  /** 8192 letters, which fill the sniff window, and then `tail`. */
  function Letters(tail: string): string {
    seq(SNIFF_BYTES, _ => 'x') + tail
  }

  function LetterBytes(tail: seq<byte>): seq<byte> {
    seq(SNIFF_BYTES, _ => 120 as byte) + tail
  }

  lemma {:induction false} NoNulStays(s: string)
    requires '\0' !in s
    ensures WithoutNul(s) == s
    decreases |s|
  {
    if s != "" {
      NoNulStays(s[1..]);
      assert s == [s[0]] + s[1..];
    }
  }

  lemma WithoutNulFront(s: string)
    ensures WithoutNul(s) == if s == "" then "" else (if s[0] == '\0' then "" else [s[0]]) + WithoutNul(s[1..])
  {
  }

  lemma {:induction false} WithoutNulConcat(a: string, b: string)
    ensures WithoutNul(a + b) == WithoutNul(a) + WithoutNul(b)
    decreases |a|
  {
    hide WithoutNul;
    WithoutNulFront(a);
    if a == "" {
      assert a + b == b;
    } else {
      WithoutNulConcat(a[1..], b);
      WithoutNulFront(a + b);
      assert (a + b)[1..] == a[1..] + b;
      var first := if a[0] == '\0' then "" else [a[0]];
      assert first + (WithoutNul(a[1..]) + WithoutNul(b)) == (first + WithoutNul(a[1..])) + WithoutNul(b);
    }
  }

  /** One member ends where the other has a NUL behind the sniff window: one content, two sizes. */
  lemma SizeIsNoFunctionOfContent(m: Member, n: Member, langOf: string -> Option<string>)
    requires m == Member("t/f", Regular, "", SNIFF_BYTES, 0, LetterBytes([]))
    requires n == Member("t/f", Regular, "", SNIFF_BYTES + 1, 0, LetterBytes([0]))
    ensures m.size == |m.raw| && n.size == |n.raw|
    ensures !LooksBinary(m.raw) && Decode(m.raw).Some? && !LooksBinary(n.raw) && Decode(n.raw).Some?
    ensures FileOf(m, langOf).path == FileOf(n, langOf).path && FileOf(m, langOf).content == FileOf(n, langOf).content
    ensures FileOf(m, langOf).size != FileOf(n, langOf).size
  {
    LettersDecode("", []);
    LettersDecode("\0", [0]);
    LettersStay("\0");
    LettersStay("");
    hide Decode, Encode, Normalised, RelPath, Components, LooksBinary, Letters, LetterBytes, WithoutNul;
    assert FileOf(m, langOf).path == FileOf(n, langOf).path;
  }

  lemma LettersDecode(tail: string, bytes: seq<byte>)
    requires |tail| == |bytes| && forall i | 0 <= i < |tail| :: tail[i] as int == bytes[i] as int < 0x80
    ensures Decode(LetterBytes(bytes)) == Some(Letters(tail)) && !LooksBinary(LetterBytes(bytes))
    ensures |LetterBytes(bytes)| == SNIFF_BYTES + |bytes|
  {
    EncodeAscii(Letters(tail), LetterBytes(bytes));
    DecodeInvertsEncode(Letters(tail));
    hide Decode, Encode;
    assert LetterBytes(bytes)[..SNIFF_BYTES] == LetterBytes([]);
  }

  lemma LettersStay(tail: string)
    requires tail == "" || tail == "\0"
    ensures WithoutNul(Letters(tail)) == Letters("")
  {
    WithoutNulConcat(Letters(""), tail);
    NoNulStays(Letters(""));
    assert Letters(tail) == Letters("") + tail;
    assert tail != "" ==> tail[1..] == "";
  }

  /** The files of the first `n` members, in order. */
  function Files(members: seq<Member>, langOf: string -> Option<string>, n: nat): seq<ParsedFile>
    requires n <= |members|
  {
    if n == 0 then []
    else Files(members, langOf, n - 1) + if Chosen(members, n - 1) then [FileOf(members[n - 1], langOf)] else []
  }

  /** The declared sizes of the regular members among the first `n`. */
  function Streamed(members: seq<Member>, n: nat): nat
    requires n <= |members|
  {
    if n == 0 then 0 else Streamed(members, n - 1) + if members[n - 1].kind == Regular then members[n - 1].size else 0
  }

  /** Something about member `i` fails the whole branch. */
  predicate Fatal(members: seq<Member>, i: nat)
    requires i < |members|
  {
    var m := members[i];
    || Normalised(m.name).Err?
    || Top(NameOf(m)) != Top(NameOf(members[0]))
    || ((m.kind == HardLink || m.kind == SymLink) && ("/" <= m.linkname || Escapes(NameOf(m), m.linkname)))
    || m.offset > MAX_EXTRACTED_BYTES
    || (m.kind == Regular && (Streamed(members, i + 1) > MAX_EXTRACTED_BYTES || PathOf(m) == ""))
  }

  function SeenPaths(members: seq<Member>, n: nat): set<string>
    requires n <= |members|
  {
    set j | 0 <= j < n && Eligible(members[j]) :: PathOf(members[j])
  }

  lemma SeenNext(members: seq<Member>, n: nat)
    requires n < |members|
    ensures SeenPaths(members, n + 1) ==
      SeenPaths(members, n) + if Eligible(members[n]) then {PathOf(members[n])} else {}
    ensures FirstOfItsPath(members, n) <==> PathOf(members[n]) !in SeenPaths(members, n)
  {
    hide Eligible, PathOf;
  }

  /** The checks that fail the whole branch, in the order of the pass. */
  method CheckMember(members: seq<Member>, i: nat, topDir: Option<string>, streamed: nat)
    returns (r: Result<(string, nat), string>)
    requires i < |members| && streamed == Streamed(members, i)
    requires topDir == if i == 0 then None else Some(Top(NameOf(members[0])))
    ensures r.Err? <==> Fatal(members, i)
    ensures r.Ok? ==> r.value == (NameOf(members[i]), Streamed(members, i + 1))
  {
    hide Escapes, Normalised, RelPath, Top;
    var m := members[i];
    var name :- Normalised(m.name);
    if topDir.Some? && Top(name) != topDir.value {
      return Err("expected exactly one top-level dir in tarball");
    }
    if (m.kind == HardLink || m.kind == SymLink) && ("/" <= m.linkname || Escapes(name, m.linkname)) {
      return Err("tarball member links outside the archive");
    }
    if m.offset > MAX_EXTRACTED_BYTES {
      return Err("tarball stream exceeds the cap");
    }
    if m.kind != Regular {
      return Ok((name, streamed));
    }
    if streamed + m.size > MAX_EXTRACTED_BYTES {
      return Err("tarball content exceeds the cap");
    }
    if RelPath(name) == "" {
      return Err("tarball member is the top-level dir itself");
    }
    return Ok((name, streamed + m.size));
  }

  /** What has been read of the first `i` members. */
  ghost predicate Progress(members: seq<Member>, langOf: string -> Option<string>, i: nat, seen: set<string>, files: seq<ParsedFile>) {
    i <= |members| && seen == SeenPaths(members, i) && files == Files(members, langOf, i)
  }

  lemma NextMember(members: seq<Member>, langOf: string -> Option<string>, i: nat, seen: set<string>, files: seq<ParsedFile>)
    requires i < |members| && Progress(members, langOf, i, seen, files)
    ensures var m, path := members[i], PathOf(members[i]);
      Progress(members, langOf, i + 1,
        if Eligible(m) then seen + {path} else seen,
        if Eligible(m) && path !in seen && !LooksBinary(m.raw) && Decode(m.raw).Some? then files + [FileOf(m, langOf)] else files)
  {
    SeenNext(members, i);
    hide Eligible, PathOf, FirstOfItsPath, FileOf, SeenPaths;
  }

  /** A member that passed the checks becomes a file, or only claims its path, or neither. */
  method Select(m: Member, name: string, langOf: string -> Option<string>, seen: set<string>, files: seq<ParsedFile>)
    returns (newSeen: set<string>, newFiles: seq<ParsedFile>)
    requires name == NameOf(m)
    ensures newSeen == if Eligible(m) then seen + {PathOf(m)} else seen
    ensures newFiles ==
      if Eligible(m) && PathOf(m) !in seen && !LooksBinary(m.raw) && Decode(m.raw).Some? then files + [FileOf(m, langOf)] else files
  {
    hide Components, RelPath, NameOf, WithoutNul;
    newSeen, newFiles := seen, files;
    var relPath := RelPath(name);
    if m.kind != Regular || ".git" in Components(relPath) || m.size > MAX_FILE_BYTES {
      return;
    }
    if relPath in seen {
      assert seen + {relPath} == seen;
      return;
    }
    newSeen := seen + {relPath};
    var text := Decode(m.raw);
    if LooksBinary(m.raw) || text.None? {
      return;
    }
    newFiles := files + [ParsedFile(relPath, langOf(relPath), m.size, WithoutNul(text.value))];
  }

  /** The files of the members before the first fatal one, or of all if there is none. */
  predicate StoppedAt(members: seq<Member>, langOf: string -> Option<string>, files: seq<ParsedFile>, n: nat)
    requires n <= |members|
  {
    && files == Files(members, langOf, n)
    && (forall i | 0 <= i < n :: !Fatal(members, i))
    && (n < |members| ==> Fatal(members, n))
  }

  lemma StopsAt(members: seq<Member>, langOf: string -> Option<string>, files: seq<ParsedFile>, n: nat)
    requires n <= |members| && files == Files(members, langOf, n)
    requires forall i | 0 <= i < n :: !Fatal(members, i)
    requires n < |members| ==> Fatal(members, n)
    ensures StoppedAt(members, langOf, files, n)
  {
  }

  /**
   The pass. `whole` tells whether the stream's trailer checks out after the last
   member. What was yielded before a failure is rolled back with the transaction.
   */
  method IterTarSourceFiles(members: seq<Member>, whole: bool, langOf: string -> Option<string>)
    returns (files: seq<ParsedFile>, error: Option<string>)
    ensures error.None? <==> whole && members != [] && forall i | 0 <= i < |members| :: !Fatal(members, i)
    ensures error.None? ==> files == Files(members, langOf, |members|)
    ensures error.Some? ==> exists n | 0 <= n <= |members| :: StoppedAt(members, langOf, files, n)
  {
    hide *;
    var topDir: Option<string> := None;
    var streamed: nat, seen: set<string> := 0, {};
    files := [];
    NothingRead(members, langOf);
    for i := 0 to |members|
      invariant forall j | 0 <= j < i :: !Fatal(members, j)
      invariant topDir == if i == 0 then None else Some(Top(NameOf(members[0])))
      invariant streamed == Streamed(members, i) && Progress(members, langOf, i, seen, files)
    {
      var m := members[i];
      FilesSoFar(members, langOf, i, seen, files);
      NextMember(members, langOf, i, seen, files);
      var checked := CheckMember(members, i, topDir, streamed);
      if checked.Err? {
        StopsAt(members, langOf, files, i);
        return files, Some(checked.error);
      }
      streamed := checked.value.1;
      if topDir.None? {
        topDir := Some(Top(checked.value.0));
      }
      seen, files := Select(m, checked.value.0, langOf, seen, files);
    }
    FilesSoFar(members, langOf, |members|, seen, files);
    StopsAt(members, langOf, files, |members|);
    if !whole {
      return files, Some("truncated archive");
    }
    if topDir.None? {
      return files, Some("expected exactly one top-level dir in tarball, found none");
    }
    return files, None;
  }

  lemma NothingRead(members: seq<Member>, langOf: string -> Option<string>)
    ensures Progress(members, langOf, 0, {}, []) && Streamed(members, 0) == 0
  {
  }

  lemma FilesSoFar(members: seq<Member>, langOf: string -> Option<string>, i: nat, seen: set<string>, files: seq<ParsedFile>)
    requires Progress(members, langOf, i, seen, files)
    ensures i <= |members| && files == Files(members, langOf, i)
  {
  }

  /** The name without a leading `./`. */
  function Bare(name: string): string {
    if "./" <= name then name[2..] else name
  }

  /** A relative name below the archive's one top-level directory, or that directory itself. */
  predicate NamedInside(name: string, first: string) {
    name != "" && name[0] != '/' && ".." !in Components(name) && Components(name)[0] == Components(first)[0]
  }

  /** What the regular members declare together. */
  function RegularBytes(members: seq<Member>): nat
    decreases |members|
  {
    if members == [] then 0
    else
      match members[0].kind
      case Regular => members[0].size + RegularBytes(members[1..])
      case _ => RegularBytes(members[1..])
  }

  lemma {:induction false} RegularBytesSnoc(members: seq<Member>, m: Member)
    ensures RegularBytes(members + [m]) == RegularBytes(members) + if m.kind.Regular? then m.size else 0
    decreases |members|
  {
    if members == [] {
      assert [m][1..] == [] && members + [m] == [m];
    } else {
      RegularBytesSnoc(members[1..], m);
      assert (members + [m])[1..] == members[1..] + [m];
    }
  }

  lemma {:induction false} StreamedIsRegularBytes(members: seq<Member>, n: nat)
    requires n <= |members|
    ensures Streamed(members, n) == RegularBytes(members[..n])
  {
    if n > 0 {
      StreamedIsRegularBytes(members, n - 1);
      RegularBytesSnoc(members[..n - 1], members[n - 1]);
      assert members[..n] == members[..n - 1] + [members[n - 1]];
    }
  }

  /**
   The member stays inside: its name, the walk of its link, its place in the stream and
   the bytes up to it; and a regular one has a name below the top-level directory.
   */
  predicate StaysInside(members: seq<Member>, i: nat)
    requires i < |members|
  {
    var m, name := members[i], Bare(members[i].name);
    && NamedInside(name, Bare(members[0].name))
    && (m.kind == HardLink || m.kind == SymLink ==>
          !("/" <= m.linkname) && !LeavesRoot(DropLast(Components(name)) + Components(m.linkname)))
    && m.offset <= 2_000_000_000
    && (m.kind == Regular ==>
          RegularBytes(members[..i + 1]) <= 2_000_000_000 && name != Top(name) && name != Top(name) + "/")
  }

  lemma NormalisedExactlyWhen(name: string)
    ensures Normalised(name) == Ok(Bare(name)) <==> Bare(name) != "" && Bare(name)[0] != '/' && ".." !in Components(Bare(name))
    ensures Normalised(name).Ok? ==> Normalised(name) == Ok(Bare(name))
  {
    hide Components;
  }

  lemma NoPathExactlyWhen(name: string)
    ensures RelPath(name) == "" <==> name == Top(name) || name == Top(name) + "/"
  {
    NameIsTopAndPath(name);
    FirstComponent(name);
    hide Components;
    assert RelPath(name) == "" && name != Top(name) ==> Top(name) + "/" + "" == Top(name) + "/";
    if name == Top(name) + "/" {
      assert |name| == |Top(name)| + 1;
    }
  }

  /** A pass goes through exactly when all members stay inside. */
  lemma PassesExactlyWhen(members: seq<Member>, n: nat)
    requires n <= |members|
    ensures (forall i | 0 <= i < n :: !Fatal(members, i)) <==> forall i | 0 <= i < n :: StaysInside(members, i)
  {
    hide Fatal, StaysInside;
    if n > 0 {
      forall i | 0 <= i < n && !Fatal(members, 0)
        ensures Fatal(members, i) <==> !StaysInside(members, i)
      {
        FatalFirst(members);
        FatalExactlyWhen(members, i);
      }
      forall i | 0 <= i < n && StaysInside(members, 0)
        ensures Fatal(members, i) <==> !StaysInside(members, i)
      {
        InsideFirst(members);
        FatalExactlyWhen(members, i);
      }
    }
  }

  lemma FatalFirst(members: seq<Member>)
    requires members != [] && !Fatal(members, 0)
    ensures Normalised(members[0].name).Ok?
  {
    hide Normalised, Escapes, PathOf, Top;
  }

  lemma InsideFirst(members: seq<Member>)
    requires members != [] && StaysInside(members, 0)
    ensures Normalised(members[0].name).Ok?
  {
    NormalisedExactlyWhen(members[0].name);
    hide Normalised, Components, LeavesRoot;
  }

  lemma FatalExactlyWhen(members: seq<Member>, i: nat)
    requires i < |members| && Normalised(members[0].name).Ok?
    ensures Fatal(members, i) <==> !StaysInside(members, i)
  {
    var m := members[i];
    NormalisedExactlyWhen(members[0].name);
    NormalisedExactlyWhen(m.name);
    EscapeIsLeavingTheRoot(Bare(m.name), m.linkname);
    NoPathExactlyWhen(Bare(m.name));
    StreamedIsRegularBytes(members, i + 1);
    hide Normalised, Escapes, LeavesRoot, RelPath, Components, Streamed, RegularBytes;
  }

  /** A regular file of at most a million bytes and outside `.git`, whatever it holds. */
  predicate CountsAt(m: Member, path: string) {
    m.kind == Regular && m.size <= 1_000_000 && PathOf(m) == path && ".git" !in Components(path)
  }

  /** The member is the first of its path, shows no NUL in its first 8 KiB and decodes, to the text `text`. */
  ghost predicate Reads(members: seq<Member>, i: nat, path: string, text: string)
    requires i < |members|
  {
    && CountsAt(members[i], path) && (forall j | 0 <= j < i :: !CountsAt(members[j], path))
    && (forall k | 0 <= k < 8192 && k < |members[i].raw| :: members[i].raw[k] != 0)
    && Decode(members[i].raw) == Some(text)
  }

  lemma ChosenExactlyWhen(members: seq<Member>, i: nat)
    requires i < |members|
    ensures Chosen(members, i) <==> exists text: string :: Reads(members, i, PathOf(members[i]), text)
  {
    hide PathOf, Components, Decode;
    var m := members[i];
    forall j | 0 <= j <= i
      ensures Eligible(members[j]) <==> CountsAt(members[j], PathOf(members[j]))
    {
    }
    SniffedExactlyWhen(m.raw);
    hide LooksBinary, Eligible, CountsAt;
    if Chosen(members, i) {
      forall j | 0 <= j < i
        ensures !CountsAt(members[j], PathOf(m))
      {
        CountsAtItsPath(members[j], PathOf(m));
      }
      assert Reads(members, i, PathOf(m), Decode(m.raw).value);
    }
    if text: string :| Reads(members, i, PathOf(m), text) {
      assert Chosen(members, i);
    }
  }

  lemma CountsAtItsPath(m: Member, path: string)
    ensures CountsAt(m, path) ==> PathOf(m) == path
  {
    hide PathOf, Components;
  }

  lemma SniffedExactlyWhen(raw: seq<byte>)
    ensures LooksBinary(raw) <==> exists k | 0 <= k < 8192 && k < |raw| :: raw[k] == 0
  {
    var n := if |raw| < SNIFF_BYTES then |raw| else SNIFF_BYTES;
    assert forall k | 0 <= k < n :: raw[..n][k] == raw[k];
  }

  /** The file holds what the member reads as, without NULs, and the size the member declares. */
  ghost predicate YieldedBy(members: seq<Member>, i: nat, langOf: string -> Option<string>, f: ParsedFile)
    requires i < |members|
  {
    exists text: string ::
      Reads(members, i, f.path, text) && f == ParsedFile(f.path, langOf(f.path), members[i].size, WithoutNul(text))
  }

  lemma YieldedExactlyWhen(members: seq<Member>, i: nat, langOf: string -> Option<string>, f: ParsedFile)
    requires i < |members|
    ensures Chosen(members, i) && f == FileOf(members[i], langOf) <==> YieldedBy(members, i, langOf, f)
  {
    ChosenExactlyWhen(members, i);
    hide PathOf, Components, Decode, WithoutNul, Chosen;
    var m := members[i];
    if Chosen(members, i) && f == FileOf(m, langOf) {
      var text: string :| Reads(members, i, PathOf(m), text);
      assert Reads(members, i, f.path, text);
    }
  }

  /**
   What a pass yields: a file for exactly each member that reads as text and is the
   first to count at its path.
   */
  lemma {:induction false} FilesExactly(members: seq<Member>, langOf: string -> Option<string>, n: nat, f: ParsedFile)
    requires n <= |members|
    ensures f in Files(members, langOf, n) <==> exists i | 0 <= i < n :: YieldedBy(members, i, langOf, f)
    decreases n
  {
    hide Chosen, FileOf, YieldedBy;
    if n > 0 {
      FilesExactly(members, langOf, n - 1, f);
      YieldedExactlyWhen(members, n - 1, langOf, f);
    }
  }

  // ------------------------------------------------------------------ the top-level directory is in no path

  lemma {:induction false} TopHasNoSlash(name: string)
    ensures '/' !in Top(name)
    decreases |name|
  {
    if name != "" {
      TopHasNoSlash(name[1..]);
    }
  }

  /** A name is its top-level directory and, behind a slash, the path below it. */
  lemma NameIsTopAndPath(name: string)
    ensures '/' !in Top(name)
    ensures |Components(name)| > 1 ==> name == Top(name) + "/" + RelPath(name)
    ensures |Components(name)| == 1 ==> name == Top(name) && RelPath(name) == ""
  {
    FirstComponent(name);
    TopHasNoSlash(name);
    hide Components;
    if |Components(name)| > 1 {
      var n := |Top(name)|;
      assert name == name[..n] + [name[n]] + name[n + 1..];
    }
  }

  lemma {:induction false} ComponentsBelow(t: string, below: string)
    requires '/' !in t
    ensures Components(t + "/" + below) == [t] + Components(below)
    decreases |t|
  {
    var name := t + "/" + below;
    if t == "" {
      assert name[1..] == below;
    } else {
      ComponentsBelow(t[1..], below);
      assert name[1..] == t[1..] + "/" + below;
      assert name[0] == t[0] && [t[0]] + t[1..] == t;
      assert ([t[1..]] + Components(below))[1..] == Components(below);
    }
  }

  lemma {:induction false} OneComponent(t: string)
    requires '/' !in t
    ensures Components(t) == [t]
    decreases |t|
  {
    if t != "" {
      OneComponent(t[1..]);
      assert [t[0]] + t[1..] == t;
    }
  }

  /** What can be the name of a directory. */
  predicate IsDirectoryName(t: string) {
    t != "" && t != "." && t != ".." && '/' !in t
  }

  /** The directory `t` itself, or a name below it. */
  function Under(t: string, below: Option<string>): string {
    match below case None => t case Some(path) => t + "/" + path
  }

  lemma UnderComponents(t: string, below: Option<string>)
    requires '/' !in t
    ensures Components(Under(t, below)) == [t] + if below.Some? then Components(below.value) else []
  {
    if below.Some? {
      ComponentsBelow(t, below.value);
    } else {
      OneComponent(t);
    }
  }

  /** Below a directory, the checks of a name look at the path alone, and the path is what is below. */
  lemma NameUnder(t: string, below: Option<string>)
    requires IsDirectoryName(t)
    ensures var name := Under(t, below);
      var path := if below.Some? then below.value else "";
      && (Normalised(name).Err? <==> below.Some? && ".." in Components(below.value))
      && (Normalised(name).Ok? ==> Normalised(name) == Ok(name) && Top(name) == t && RelPath(name) == path)
  {
    var name := Under(t, below);
    UnderComponents(t, below);
    NameIsTopAndPath(name);
    hide Components;
    if below.Some? && Normalised(name).Ok? {
      assert name[|t| + 1..] == below.value;
    }
  }

  lemma {:induction false} DepthBelow(t: string, parts: seq<string>)
    requires IsDirectoryName(t)
    ensures Depth([t] + parts) == 1 + Depth(parts)
    decreases |parts|
  {
    if parts == [] {
      assert [t] + parts == [t] && [t][..0] == [];
    } else {
      var n := |parts| - 1;
      DepthBelow(t, parts[..n]);
      assert ([t] + parts)[..|parts|] == [t] + parts[..n];
    }
  }

  lemma LeavesRootBelow(t: string, u: string, parts: seq<string>)
    requires IsDirectoryName(t) && IsDirectoryName(u) && LeavesRoot([t] + parts)
    ensures LeavesRoot([u] + parts)
  {
    hide Depth;
    var i :| 0 <= i <= |[t] + parts| && Depth(([t] + parts)[..i]) < 0;
    if i == 0 {
      assert ([u] + parts)[..0] == ([t] + parts)[..0];
    } else {
      DepthBelow(t, parts[..i - 1]);
      DepthBelow(u, parts[..i - 1]);
      assert ([t] + parts)[..i] == [t] + parts[..i - 1] && ([u] + parts)[..i] == [u] + parts[..i - 1];
    }
  }

  lemma WalkUnder(t: string, below: Option<string>, link: seq<string>)
    requires '/' !in t
    ensures DropLast(Components(Under(t, below))) + link ==
      if below.Some? then [t] + (DropLast(Components(below.value)) + link) else link
  {
    UnderComponents(t, below);
    hide Under, Components;
    if below.Some? {
      var parts := Components(below.value);
      assert ([t] + parts)[..|parts|] == [t] + parts[..|parts| - 1];
    }
  }

  /** Where a link leads does not turn on the name of the top-level directory. */
  lemma EscapesBelow(t: string, u: string, below: Option<string>, linkname: string)
    requires IsDirectoryName(t) && IsDirectoryName(u)
    ensures Escapes(Under(t, below), linkname) <==> Escapes(Under(u, below), linkname)
  {
    hide Escapes, Under, LeavesRoot, Components, DropLast;
    var link := Components(linkname);
    EscapeIsLeavingTheRoot(Under(t, below), linkname);
    EscapeIsLeavingTheRoot(Under(u, below), linkname);
    WalkUnder(t, below, link);
    WalkUnder(u, below, link);
    if below.Some? {
      var parts := DropLast(Components(below.value)) + link;
      if LeavesRoot([t] + parts) { LeavesRootBelow(t, u, parts); }
      if LeavesRoot([u] + parts) { LeavesRootBelow(u, t, parts); }
    }
  }

  /** Two archives of the same members, under directories `t` and `u`. */
  predicate SameBut(members: seq<Member>, others: seq<Member>, t: string, u: string, below: seq<Option<string>>) {
    && IsDirectoryName(t) && IsDirectoryName(u) && |members| == |others| == |below|
    && forall i | 0 <= i < |members| ::
         members[i].name == Under(t, below[i]) && others[i] == members[i].(name := Under(u, below[i]))
  }

  lemma SamePath(members: seq<Member>, others: seq<Member>, t: string, u: string, below: seq<Option<string>>, i: nat)
    requires SameBut(members, others, t, u, below) && i < |members|
    ensures Normalised(members[i].name).Ok? == Normalised(others[i].name).Ok?
    ensures PathOf(members[i]) == PathOf(others[i])
    ensures Normalised(members[i].name).Ok? ==>
      && NameOf(members[i]) == Under(t, below[i]) && NameOf(others[i]) == Under(u, below[i])
      && Top(NameOf(members[i])) == t && Top(NameOf(others[i])) == u
      && PathOf(members[i]) == if below[i].Some? then below[i].value else ""
    ensures Normalised(members[i].name).Err? ==> NameOf(members[i]) == NameOf(others[i]) == ""
  {
    hide Normalised, RelPath, Under, IsDirectoryName, Top;
    NameUnder(t, below[i]);
    NameUnder(u, below[i]);
  }

  lemma SameFatal(members: seq<Member>, others: seq<Member>, t: string, u: string, below: seq<Option<string>>, i: nat)
    requires SameBut(members, others, t, u, below) && i < |members|
    ensures Fatal(members, i) <==> Fatal(others, i)
  {
    hide Normalised, PathOf, NameOf, Top, Escapes, Streamed, Under;
    SamePath(members, others, t, u, below, 0);
    SamePath(members, others, t, u, below, i);
    SameStreamed(members, others, t, u, below, i + 1);
    EscapesBelow(t, u, below[i], members[i].linkname);
    TopOfNothing();
  }

  lemma TopOfNothing()
    ensures Top("") == ""
  {
  }

  lemma {:induction false} SameStreamed(
    members: seq<Member>, others: seq<Member>, t: string, u: string, below: seq<Option<string>>, n: nat)
    requires SameBut(members, others, t, u, below) && n <= |members|
    ensures Streamed(members, n) == Streamed(others, n)
    decreases n
  {
    hide Under;
    if n > 0 {
      SameStreamed(members, others, t, u, below, n - 1);
    }
  }

  lemma SameChosen(members: seq<Member>, others: seq<Member>, t: string, u: string, below: seq<Option<string>>, i: nat)
    requires SameBut(members, others, t, u, below) && i < |members|
    ensures Chosen(members, i) <==> Chosen(others, i)
  {
    forall j | 0 <= j <= i
      ensures PathOf(members[j]) == PathOf(others[j])
    {
      SamePath(members, others, t, u, below, j);
    }
    hide PathOf, Under, LooksBinary, Decode, Components;
    assert forall j | 0 <= j <= i :: Eligible(members[j]) == Eligible(others[j]);
  }

  lemma SameFile(
    members: seq<Member>, others: seq<Member>, t: string, u: string, below: seq<Option<string>>,
    langOf: string -> Option<string>, i: nat)
    requires SameBut(members, others, t, u, below) && i < |members|
    ensures FileOf(members[i], langOf) == FileOf(others[i], langOf)
    ensures Normalised(members[i].name).Ok? ==>
      FileOf(members[i], langOf).path == if below[i].Some? then below[i].value else ""
  {
    hide PathOf, Normalised, Under, Decode, WithoutNul, NameOf, Top, IsDirectoryName;
    SamePath(members, others, t, u, below, i);
  }

  lemma {:induction false} SameFiles(
    members: seq<Member>, others: seq<Member>, t: string, u: string, below: seq<Option<string>>,
    langOf: string -> Option<string>, n: nat)
    requires SameBut(members, others, t, u, below) && n <= |members|
    ensures n <= |others| && Files(members, langOf, n) == Files(others, langOf, n)
    decreases n
  {
    hide Chosen, FileOf, Under, IsDirectoryName;
    if n > 0 {
      SameFiles(members, others, t, u, below, langOf, n - 1);
      SameChosen(members, others, t, u, below, n - 1);
      SameFile(members, others, t, u, below, langOf, n - 1);
    }
  }

  /**
   The name of the archive's own directory, which changes with every commit, does not
   show: two archives that differ in it alone fail at the same members and give the
   same files, and the path of a file is what its member's name has below it.
   */
  lemma TopDirectoryDoesNotShow(
    members: seq<Member>, others: seq<Member>, t: string, u: string, below: seq<Option<string>>,
    langOf: string -> Option<string>)
    requires SameBut(members, others, t, u, below)
    ensures |others| == |below| == |members| && Files(members, langOf, |members|) == Files(others, langOf, |others|)
    ensures forall i | 0 <= i < |members| :: Fatal(members, i) <==> Fatal(others, i)
    ensures forall i | 0 <= i < |members| && Normalised(members[i].name).Ok? ::
      FileOf(members[i], langOf).path == if below[i].Some? then below[i].value else ""
  {
    SameFiles(members, others, t, u, below, langOf, |members|);
    hide Fatal, Files, FileOf, Normalised, Under, IsDirectoryName;
    forall i | 0 <= i < |members|
      ensures Fatal(members, i) <==> Fatal(others, i)
      ensures Normalised(members[i].name).Ok? ==>
        FileOf(members[i], langOf).path == if below[i].Some? then below[i].value else ""
    {
      SameFatal(members, others, t, u, below, i);
      SameFile(members, others, t, u, below, langOf, i);
    }
  }

  // ------------------------------------------------------------------ a tree has one file at a path

  lemma {:induction false} FileComesFromAMember(
    members: seq<Member>, langOf: string -> Option<string>, n: nat, k: nat) returns (i: nat)
    requires n <= |members| && k < |Files(members, langOf, n)|
    ensures i < n && Chosen(members, i) && Files(members, langOf, n)[k] == FileOf(members[i], langOf)
    ensures k == |Files(members, langOf, i)|
    decreases n
  {
    hide Chosen, FileOf;
    if k < |Files(members, langOf, n - 1)| {
      i := FileComesFromAMember(members, langOf, n - 1, k);
    } else {
      i := n - 1;
    }
  }

  /** No two files of a pass share a path. */
  lemma FilesHaveDistinctPaths(members: seq<Member>, langOf: string -> Option<string>, n: nat, k: nat, l: nat)
    requires n <= |members| && k < l < |Files(members, langOf, n)|
    ensures Files(members, langOf, n)[k].path != Files(members, langOf, n)[l].path
  {
    var i := FileComesFromAMember(members, langOf, n, k);
    var j := FileComesFromAMember(members, langOf, n, l);
    FilesGrow(members, langOf, if i < j then i else j, if i < j then j else i);
    hide Files, Eligible, PathOf;
    assert i != j;
    if j < i {
      assert false;
    }
  }

  lemma {:induction false} FilesGrow(members: seq<Member>, langOf: string -> Option<string>, a: nat, b: nat)
    requires a <= b <= |members|
    ensures |Files(members, langOf, a)| <= |Files(members, langOf, b)|
    decreases b
  {
    hide Chosen, FileOf;
    if a < b {
      FilesGrow(members, langOf, a, b - 1);
    }
  }

  /** What the history of a corpus asks of a run's items holds of the items of an archive. */
  lemma ArchivesHaveDistinctPaths(members: seq<Member>, langOf: string -> Option<string>, items: seq<Tables.Item>)
    requires |items| == |Files(members, langOf, |members|)|
    requires forall k | 0 <= k < |items| :: items[k].pf == Files(members, langOf, |members|)[k]
    ensures CorpusHistory.DistinctPaths(items)
  {
    forall k, l | 0 <= k < l < |items|
      ensures items[k].pf.path != items[l].pf.path
    {
      FilesHaveDistinctPaths(members, langOf, |members|, k, l);
    }
  }
}
