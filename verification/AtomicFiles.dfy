/** File names, metadata and file operations shared by the atomic writer
    (`src/core/json.ts`) and its recovery (`src/core/atomic-file.ts`). */
module AtomicFiles {
  import opened Wrappers
  import opened Bytes

  /** Where a name lives: below `.dokion` outside its recovery directory, the file
      `HARDENING.md`, or anywhere the recovery never looks. */
  datatype Area = Dokion | Hardening | Elsewhere

  /** A path, read from its suffix: `p.tmp`, `p.meta.json`, or a name with neither
      ending. Quarantined files sit in a directory of their own per recovery. */
  datatype Path =
    | Plain(area: Area, name: string)
    | Tmp(of: Path)
    | Meta(of: Path)
    | Quarantined(id: nat, of: Path)

  type Files = map<Path, Bytes>

  function AreaOf(path: Path): Area {
    match path
    case Plain(area, _) => area
    case Tmp(p) => AreaOf(p)
    case Meta(p) => AreaOf(p)
    case Quarantined(_, _) => Elsewhere
  }

  /** Whether `walkOwnedTemporaryFiles` comes across the path. Beside `HARDENING.md`
      it looks at two fixed names only. */
  predicate InScope(path: Path) {
    match AreaOf(path)
    case Dokion => true
    case Hardening => (path.Tmp? && path.of.Plain?) || (path.Meta? && path.of.Tmp? && path.of.of.Plain?)
    case Elsewhere => false
  }

  predicate IsTemporary(path: Path) {
    InScope(path) && path.Tmp?
  }

  /** Ends in `.tmp.meta.json`. */
  predicate IsMetadata(path: Path) {
    InScope(path) && path.Meta? && path.of.Tmp?
  }

  predicate Owned(path: Path) {
    IsTemporary(path) || IsMetadata(path)
  }

  /** Below `.dokion`, whatever ends in `.tmp` or `.tmp.meta.json` is a recovery's; beside
      `HARDENING.md`, the two names that add these endings to it; nothing elsewhere. */
  lemma WhatIsOwned(p: Path)
    ensures AreaOf(p) == Dokion ==> (Owned(p) <==> exists q: Path :: p == Tmp(q) || p == Meta(Tmp(q)))
    ensures AreaOf(p) == Hardening ==>
              (Owned(p) <==> exists name: string :: var q := Plain(Hardening, name); p == Tmp(q) || p == Meta(Tmp(q)))
    ensures AreaOf(p) == Elsewhere ==> !Owned(p)
    ensures forall id: nat, q: Path :: p == Quarantined(id, q) ==> !Owned(p)
  {
    if AreaOf(p) == Dokion && Owned(p) {
      assert p.Tmp? ==> p == Tmp(p.of);
      assert !p.Tmp? ==> p == Meta(Tmp(p.of.of));
    }
    if AreaOf(p) == Hardening && Owned(p) {
      var file := if p.Tmp? then p.of else p.of.of;
      assert AreaOf(p.of) == Hardening && AreaOf(file) == Hardening && file == Plain(Hardening, file.name);
      assert p == Tmp(Plain(Hardening, file.name)) || p == Meta(Tmp(Plain(Hardening, file.name)));
    }
  }

  datatype Kind = Json | Text

  /** The fields of a metadata file that recovery compares. */
  datatype Metadata = Metadata(targetName: string, kind: Kind, size: nat, digest: string)

  /** The services the protocol calls: `sha256`, the metadata printer, the parser with
      its schema check, `JSON.parse` on content, and `basename`. */
  datatype Services = Services(
    digest: Bytes -> string,
    render: Metadata -> Bytes,
    parse: Bytes -> Option<Metadata>,
    validJson: Bytes -> bool,
    basename: Path -> string)

  /** Equal digests mean equal content; a metadata file cut short either does not parse
      or still says the same. */
  ghost predicate Lawful(e: Services) {
    && (forall a: Bytes, b: Bytes :: e.digest(a) == e.digest(b) ==> a == b)
    && (forall m: Metadata :: e.parse(e.render(m)) == Some(m))
    && (forall m: Metadata, cut: Bytes :: cut <= e.render(m) ==> e.parse(cut) == None || e.parse(cut) == Some(m))
  }

  function MetadataFor(e: Services, target: Path, content: Bytes, kind: Kind): Metadata {
    Metadata(e.basename(target), kind, |content|, e.digest(content))
  }

  datatype Op = Rename(from: Path, to: Path) | Remove(path: Path)

  function Apply(fs: Files, op: Op): Files {
    match op
    case Rename(from, to) => if from in fs then (fs - {from})[to := fs[from]] else fs
    case Remove(path) => fs - {path}
  }

  function Run(fs: Files, ops: seq<Op>): Files
    decreases |ops|
  {
    if ops == [] then fs else Run(Apply(fs, ops[0]), ops[1..])
  }

  lemma {:induction false} RunJoin(fs: Files, a: seq<Op>, b: seq<Op>)
    ensures Run(fs, a + b) == Run(Run(fs, a), b)
    decreases |a|
  {
    if a == [] {
      assert a + b == b;
    } else {
      assert (a + b)[1..] == a[1..] + b;
      RunJoin(Apply(fs, a[0]), a[1..], b);
    }
  }

  ghost predicate SameFile(a: Files, b: Files, p: Path) {
    (p in a <==> p in b) && (p in a ==> a[p] == b[p])
  }

  function Length(path: Path): nat {
    match path
    case Plain(_, _) => 0
    case Tmp(p) => Length(p) + 1
    case Meta(p) => Length(p) + 1
    case Quarantined(_, p) => Length(p) + 1
  }

  lemma SuffixesDiffer(path: Path)
    ensures path != Tmp(path) && path != Meta(Tmp(path)) && Tmp(path) != Meta(Tmp(path))
  {
    assert Length(Meta(Tmp(path))) == Length(Tmp(path)) + 1 == Length(path) + 2;
  }
}
