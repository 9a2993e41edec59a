/** Content-hashed names of static files: how a name is built and undone, how a file
    is hashed in chunks, and the manifest of a directory tree. */
module Assets {
  import opened Text
  import opened FileTree

  // ---- Hashed names -----------------------------------------------------------------

  const HEX: string := "0123456789abcdef"

  function HexByte(b: byte): (s: string)
    ensures |s| == 2 && '.' !in s
  {
    [HEX[b / 16], HEX[b % 16]]
  }

  /** The first four bytes in hexadecimal. */
  function HexPrefix(bytes: seq<byte>, n: nat): (s: string)
    requires n <= |bytes|
    ensures |s| == 2 * n && '.' !in s
  {
    if n == 0 then "" else HexPrefix(bytes, n - 1) + HexByte(bytes[n - 1])
  }

  function HexDigit(c: char): nat {
    if '0' <= c <= '9' then (c - '0') as nat else if 'a' <= c <= 'f' then (c - 'a') as nat + 10 else 16
  }

  /** The text spells the bytes in lower-case hexadecimal, two digits each, high one first. */
  predicate Spells(s: string, bytes: seq<byte>) {
    && |s| == 2 * |bytes|
    && (forall k | 0 <= k < |s| :: '0' <= s[k] <= '9' || 'a' <= s[k] <= 'f')
    && (forall k | 0 <= k < |bytes| :: 16 * HexDigit(s[2 * k]) + HexDigit(s[2 * k + 1]) == bytes[k])
  }

  lemma HexByteSpells(b: byte)
    ensures var s := HexByte(b);
            && 16 * HexDigit(s[0]) + HexDigit(s[1]) == b
            && forall k | 0 <= k < 2 :: '0' <= s[k] <= '9' || 'a' <= s[k] <= 'f'
  {
    assert forall d: nat | d < 16 :: HexDigit(HEX[d]) == d && ('0' <= HEX[d] <= '9' || 'a' <= HEX[d] <= 'f');
  }

  lemma {:induction false} HexPrefixSpells(bytes: seq<byte>, n: nat)
    requires n <= |bytes|
    ensures Spells(HexPrefix(bytes, n), bytes[..n])
  {
    hide HexByte, HexDigit;
    if n == 0 {
    } else {
      var init, last := HexPrefix(bytes, n - 1), HexByte(bytes[n - 1]);
      HexPrefixSpells(bytes, n - 1);
      HexByteSpells(bytes[n - 1]);
      var s := HexPrefix(bytes, n);
      assert s == init + last;
      forall k | 0 <= k < n ensures 16 * HexDigit(s[2 * k]) + HexDigit(s[2 * k + 1]) == bytes[k] {
        if k < n - 1 {
          assert s[2 * k] == init[2 * k] && s[2 * k + 1] == init[2 * k + 1] && bytes[..n - 1][k] == bytes[k];
        } else {
          assert s[2 * k] == last[0] && s[2 * k + 1] == last[1];
        }
      }
    }
  }

  lemma DeadBeef(bytes: seq<byte>)
    requires |bytes| >= 4 && bytes[..4] == [0xde, 0xad, 0xbe, 0xef]
    ensures HexPrefix(bytes, 4) == "deadbeef"
  {
    assert bytes[0] == 0xde && bytes[1] == 0xad && bytes[2] == 0xbe && bytes[3] == 0xef by {
      assert bytes[..4][0] == 0xde && bytes[..4][1] == 0xad && bytes[..4][2] == 0xbe && bytes[..4][3] == 0xef;
    }
    assert HexPrefix(bytes, 1) == "de";
    assert HexPrefix(bytes, 2) == "dead";
    assert HexPrefix(bytes, 3) == "deadbe";
  }

  lemma HexByteInjective(a: byte, b: byte)
    requires HexByte(a) == HexByte(b)
    ensures a == b
  {
    assert forall d: nat | d < 16 :: HexDigit(HEX[d]) == d;
    assert a / 16 == HexDigit(HexByte(a)[0]) == HexDigit(HexByte(b)[0]) == b / 16;
    assert a % 16 == HexDigit(HexByte(a)[1]) == HexDigit(HexByte(b)[1]) == b % 16;
  }

  /** The hexadecimal text is the bytes: nothing of them is lost or mixed up. */
  lemma {:induction false} HexPrefixDetermines(a: seq<byte>, b: seq<byte>, n: nat)
    requires n <= |a| && n <= |b|
    ensures HexPrefix(a, n) == HexPrefix(b, n) <==> a[..n] == b[..n]
  {
    hide HexByte;
    if n == 0 {
    } else {
      HexPrefixDetermines(a, b, n - 1);
      var ha, hb := HexPrefix(a, n), HexPrefix(b, n);
      assert ha[..2 * n - 2] == HexPrefix(a, n - 1) && ha[2 * n - 2..] == HexByte(a[n - 1]);
      assert hb[..2 * n - 2] == HexPrefix(b, n - 1) && hb[2 * n - 2..] == HexByte(b[n - 1]);
      assert a[..n] == a[..n - 1] + [a[n - 1]] && b[..n] == b[..n - 1] + [b[n - 1]];
      if ha == hb {
        HexByteInjective(a[n - 1], b[n - 1]);
      }
    }
  }

  method HexShort(bytes: seq<byte>) returns (s: string)
    requires |bytes| >= 4
    ensures s == HexPrefix(bytes, 4) && IsShortHash(s) && Spells(s, bytes[..4])
  {
    HexPrefixSpells(bytes, 4);
    s := "";
    for k := 0 to 4
      invariant s == HexPrefix(bytes, k)
    {
      s := s + HexByte(bytes[k]);
    }
  }

  predicate IsShortHash(h: string) {
    |h| == 8 && '.' !in h
  }

  /** The hash goes before the last dot of the whole path, or to the end if there is none. */
  function InjectHash(logical: string, hash: string): string {
    match RFind(logical, '.')
    case Some(dot) => logical[..dot] + "." + hash + logical[dot..]
    case None => logical + "." + hash
  }

  datatype Unhashed = Unhashed(logical: string, hash: string)

  /** The two forms: in front of the extension, dots in directories or not, and at the
      end of a path without a dot. */
  lemma HashedNameIs(stem: string, ext: string, hash: string)
    requires '.' !in ext
    ensures InjectHash(stem + "." + ext, hash) == stem + "." + hash + "." + ext
    ensures '.' !in stem ==> InjectHash(stem, hash) == stem + "." + hash
  {
    var logical := stem + "." + ext;
    assert logical[|stem| + 1..] == ext && logical[..|stem|] == stem && logical[|stem|..] == "." + ext;
    RFindAt(logical, '.', |stem|);
    assert stem + "." + hash + ("." + ext) == stem + "." + hash + "." + ext;
  }

  /** The inverse: the path and the hash that a hashed name was built from. */
  function EjectHash(name: string): Option<Unhashed> {
    match RFind(name, '.')
    case None => None
    case Some(d) =>
      if d >= 9 && name[d - 9] == '.' && '.' !in name[d - 8..d] then
        Some(Unhashed(name[..d - 9] + name[d..], name[d - 8..d]))
      else if |name| - d == 9 && '.' !in name[..d] then
        Some(Unhashed(name[..d], name[d + 1..]))
      else None
  }

  lemma {:induction false} EjectInvertsInjectDotted(logical: string, hash: string, dot: nat)
    requires IsShortHash(hash) && RFind(logical, '.') == Some(dot)
    ensures EjectHash(InjectHash(logical, hash)) == Some(Unhashed(logical, hash))
  {
    hide RFind;
    var stem, ext := logical[..dot], logical[dot..];
    var name, d := stem + "." + hash + ext, dot + 9;
    assert name[d..] == ext && name[d + 1..] == ext[1..] == logical[dot + 1..];
    RFindAt(name, '.', d);
    assert name[d - 8..d] == hash && name[d - 9] == '.' && name[..d - 9] == stem;
    assert stem + ext == logical;
  }

  lemma {:induction false} EjectInvertsInjectDotless(logical: string, hash: string)
    requires IsShortHash(hash) && RFind(logical, '.') == None
    ensures EjectHash(InjectHash(logical, hash)) == Some(Unhashed(logical, hash))
  {
    hide RFind;
    var name, d := logical + "." + hash, |logical|;
    assert name[d + 1..] == hash && name[..d] == logical;
    RFindAt(name, '.', d);
    assert d >= 9 ==> name[d - 9] == logical[d - 9];
  }

  /** Building a name and taking it apart again gives back path and hash. */
  lemma {:induction false} EjectInvertsInject(logical: string, hash: string)
    requires IsShortHash(hash)
    ensures EjectHash(InjectHash(logical, hash)) == Some(Unhashed(logical, hash))
  {
    hide RFind, EjectHash, InjectHash;
    match RFind(logical, '.')
    case Some(dot) => EjectInvertsInjectDotted(logical, hash, dot);
    case None => EjectInvertsInjectDotless(logical, hash);
  }

  lemma {:induction false} InjectInvertsEjectDotted(name: string, d: nat)
    requires RFind(name, '.') == Some(d) && d >= 9 && name[d - 9] == '.' && '.' !in name[d - 8..d]
    ensures InjectHash(name[..d - 9] + name[d..], name[d - 8..d]) == name
  {
    hide RFind;
    var stem, hash, ext := name[..d - 9], name[d - 8..d], name[d..];
    var logical := stem + ext;
    assert logical[d - 9 + 1..] == name[d + 1..];
    RFindAt(logical, '.', d - 9);
    assert logical[..d - 9] == stem && logical[d - 9..] == ext;
    assert name == stem + "." + hash + ext;
  }

  /** Only hashed names come apart. */
  lemma {:induction false} InjectInvertsEject(name: string)
    requires EjectHash(name).Some?
    ensures var u := EjectHash(name).value;
            IsShortHash(u.hash) && InjectHash(u.logical, u.hash) == name
  {
    hide RFind;
    var d := RFind(name, '.').value;
    if d >= 9 && name[d - 9] == '.' && '.' !in name[d - 8..d] {
      hide InjectHash;
      InjectInvertsEjectDotted(name, d);
    } else {
      assert name == name[..d] + "." + name[d + 1..];
    }
  }

  lemma InjectIsInjective(l1: string, h1: string, l2: string, h2: string)
    requires IsShortHash(h1) && IsShortHash(h2)
    ensures InjectHash(l1, h1) == InjectHash(l2, h2) <==> l1 == l2 && h1 == h2
  {
    EjectInvertsInject(l1, h1);
    EjectInvertsInject(l2, h2);
  }

  // ---- The manifest's two directions ----------------------------------------------------

  datatype Assets = Hashed(root: string, manifest: map<string, string>) | Passthrough(root: string)

  function Resolve(a: Assets, logical: string): string {
    if a.Hashed? && logical in a.manifest then a.manifest[logical] else logical
  }

  function OnDisk(a: Assets, logical: string): string {
    a.root + "/" + logical
  }

  /** A path that is not in the manifest stays as it is, and so does every path in development. */
  lemma UnknownResolvesToItself(a: Assets, logical: string)
    ensures a.Passthrough? || logical !in a.manifest ==> Resolve(a, logical) == logical
    ensures a.Hashed? && logical in a.manifest ==> Resolve(a, logical) == a.manifest[logical]
  {
  }

  /** Every entry maps a path to a hashed name of itself. */
  ghost predicate HashedNames(manifest: map<string, string>) {
    forall l | l in manifest :: exists h :: IsShortHash(h) && manifest[l] == InjectHash(l, h)
  }

  /** Scans the map in whatever order it yields its entries. On a manifest of hashed
      names the scan inverts `Resolve`: it answers the file of key l exactly for the
      hashed name of l, and only requests of the form that `EjectHash` takes apart. */
  method ResolveHashedRequest(a: Assets, url: string) returns (r: Option<string>)
    ensures a.Passthrough? ==> r == None
    ensures a.Hashed? && r.None? ==> forall l | l in a.manifest :: a.manifest[l] != url
    ensures a.Hashed? && r.Some? ==> exists l | l in a.manifest :: a.manifest[l] == url && r.value == a.root + "/" + l
    ensures a.Hashed? && HashedNames(a.manifest) ==>
              forall l | l in a.manifest :: r == Some(OnDisk(a, l)) <==> Resolve(a, l) == url
    ensures a.Hashed? && HashedNames(a.manifest) ==>
              (r.Some? <==>
                 && EjectHash(url).Some?
                 && EjectHash(url).value.logical in a.manifest
                 && Resolve(a, EjectHash(url).value.logical) == url)
  {
    r := None;
    if a.Passthrough? {
      return;
    }
    var rest := a.manifest.Keys;
    while rest != {} && r.None?
      invariant rest <= a.manifest.Keys
      invariant r.None? ==> forall l | l in a.manifest && l !in rest :: a.manifest[l] != url
      invariant r.Some? ==> exists l | l in a.manifest :: a.manifest[l] == url && r.value == OnDisk(a, l)
      decreases |rest|
    {
      var l :| l in rest;
      rest := rest - {l};
      if a.manifest[l] == url {
        r := Some(OnDisk(a, l));
      }
    }
    if HashedNames(a.manifest) {
      ScanIsInverse(a, url, r);
    }
  }

  lemma ScanIsInverse(a: Assets, url: string, r: Option<string>)
    requires a.Hashed? && HashedNames(a.manifest)
    requires r.None? ==> forall l | l in a.manifest :: a.manifest[l] != url
    requires r.Some? ==> exists l | l in a.manifest :: a.manifest[l] == url && r.value == OnDisk(a, l)
    ensures forall l | l in a.manifest :: r == Some(OnDisk(a, l)) <==> Resolve(a, l) == url
    ensures r.Some? <==>
              && EjectHash(url).Some?
              && EjectHash(url).value.logical in a.manifest
              && Resolve(a, EjectHash(url).value.logical) == url
  {
    forall l | l in a.manifest
      ensures a.manifest[l] == url ==> EjectHash(url).Some? && EjectHash(url).value.logical == l
    {
      var h :| IsShortHash(h) && a.manifest[l] == InjectHash(l, h);
      EjectInvertsInject(l, h);
    }
    if r.Some? {
      var k :| k in a.manifest && a.manifest[k] == url && r.value == OnDisk(a, k);
      forall l | l in a.manifest ensures r == Some(OnDisk(a, l)) <==> Resolve(a, l) == url {
        assert OnDisk(a, l)[|a.root| + 1..] == l && OnDisk(a, k)[|a.root| + 1..] == k;
      }
    }
  }

  // ---- Hashing a file --------------------------------------------------------------------

  class OpenFile {
    const content: seq<byte>
    var pos: nat

    constructor (content: seq<byte>)
      ensures this.content == content && pos == 0
    {
      this.content := content;
      pos := 0;
    }

    /** Reads some bytes into the buffer: as few or as many as the system likes, none
        only at the end of the file. */
    method Read(buf: array<byte>) returns (n: nat)
      requires pos <= |content| && buf.Length > 0
      modifies this`pos, buf
      ensures pos == old(pos) + n <= |content| && n <= buf.Length
      ensures n == 0 <==> old(pos) == |content|
      ensures buf[..n] == content[old(pos)..pos]
    {
      var left := |content| - pos;
      if left == 0 {
        return 0;
      }
      n :| 1 <= n <= left && n <= buf.Length;
      for k := 0 to n
        invariant pos == old(pos)
        invariant buf[..k] == content[pos..pos + k]
      {
        buf[k] := content[pos + k];
      }
      pos := pos + n;
    }
  }

  /** A streaming hash: it has absorbed the bytes of all updates, in order. */
  class Hasher {
    const digest: seq<byte> -> seq<byte>
    var absorbed: seq<byte>

    constructor (digest: seq<byte> -> seq<byte>)
      ensures this.digest == digest && absorbed == []
    {
      this.digest := digest;
      absorbed := [];
    }

    method Update(bytes: seq<byte>)
      modifies this
      ensures absorbed == old(absorbed) + bytes
    {
      absorbed := absorbed + bytes;
    }

    method Finalize() returns (d: seq<byte>)
      ensures d == digest(absorbed)
    {
      d := digest(absorbed);
    }
  }

  /** The short hash of a file is that of its whole content, however the reads split it. */
  method HashFile(digest: seq<byte> -> seq<byte>, content: seq<byte>) returns (hash: string)
    requires forall bytes :: |digest(bytes)| >= 4
    ensures hash == ShortHash(digest, content) && Spells(hash, digest(content)[..4])
  {
    var file := new OpenFile(content);
    var hasher := new Hasher(digest);
    var buf := new byte[8192];
    var n: nat := file.Read(buf);
    while n != 0
      invariant file.content == content && hasher.digest == digest
      invariant n <= buf.Length && n <= file.pos
      invariant file.pos <= |content| && (n == 0 ==> file.pos == |content|)
      invariant hasher.absorbed == content[..file.pos - n]
      invariant buf[..n] == content[file.pos - n..file.pos]
      decreases |content| - file.pos, n
    {
      hasher.Update(buf[..n]);
      assert hasher.absorbed == content[..file.pos];
      n := file.Read(buf);
    }
    assert hasher.absorbed == content;
    var d := hasher.Finalize();
    hash := HexShort(d);
  }

  function ShortHash(digest: seq<byte> -> seq<byte>, content: seq<byte>): (h: string)
    requires |digest(content)| >= 4
    ensures IsShortHash(h)
  {
    HexPrefix(digest(content), 4)
  }

  // ---- The walk ------------------------------------------------------------------------------

  predicate Precompressed(path: seq<string>)
    requires path != []
  {
    EndsWith(path[|path| - 1], ".gz") || EndsWith(path[|path| - 1], ".br")
  }

  /** The walk succeeds: every directory opens and every file to be hashed can be read. */
  ghost predicate Walkable(entries: seq<Entry>, above: seq<string>) {
    && Readable(entries)
    && forall f | f in Files(entries, above) :: f.path != [] && !Precompressed(f.path) ==> f.content.Some?
  }

  /** The manifest `m` with the files of a walk recorded in it. */
  function Recorded(digest: seq<byte> -> seq<byte>, found: seq<Found>, m: map<string, string>): map<string, string>
    requires forall bytes :: |digest(bytes)| >= 4
  {
    if found == [] then m
    else Recorded(digest, found[1..], Record(digest, found[0], m))
  }

  function Record(digest: seq<byte> -> seq<byte>, f: Found, m: map<string, string>): map<string, string>
    requires forall bytes :: |digest(bytes)| >= 4
  {
    if f.path == [] || Precompressed(f.path) || f.content.None? then m
    else m[LogicalPath(f.path) := InjectHash(LogicalPath(f.path), ShortHash(digest, f.content.value))]
  }

  lemma {:induction false} RecordedAppend(
    digest: seq<byte> -> seq<byte>, a: seq<Found>, b: seq<Found>, m: map<string, string>)
    requires forall bytes :: |digest(bytes)| >= 4
    ensures Recorded(digest, a + b, m) == Recorded(digest, b, Recorded(digest, a, m))
  {
    if a == [] {
      assert a + b == b;
    } else {
      assert (a + b)[1..] == a[1..] + b;
      RecordedAppend(digest, a[1..], b, Record(digest, a[0], m));
    }
  }

  class ManifestBuilder {
    const digest: seq<byte> -> seq<byte>
    var manifest: map<string, string>

    ghost predicate Valid()
      reads this
    {
      forall bytes :: |digest(bytes)| >= 4
    }

    constructor (digest: seq<byte> -> seq<byte>)
      requires forall bytes :: |digest(bytes)| >= 4
      ensures Valid() && this.digest == digest && manifest == map[]
    {
      this.digest := digest;
      manifest := map[];
    }

    method WalkFiles(entries: seq<Entry>, above: seq<string>) returns (ok: bool)
      requires Valid()
      modifies this
      ensures Valid()
      ensures ok <==> Walkable(entries, above)
      ensures ok ==> manifest == Recorded(digest, Files(entries, above), old(manifest))
      decreases entries
    {
      var i := 0;
      while i < |entries|
        invariant 0 <= i <= |entries|
        invariant Walkable(entries, above) <==> Walkable(entries[i..], above)
        invariant Recorded(digest, Files(entries, above), old(manifest))
               == Recorded(digest, Files(entries[i..], above), manifest)
      {
        var e := entries[i];
        var path := above + [e.name];
        StepInto(digest, entries[i..], above, manifest);
        assert entries[i..][1..] == entries[i + 1..];
        i := i + 1;
        match e.node
        case BrokenDir =>
          return false;
        case Dir(inner) =>
          var inside := WalkFiles(inner, path);
          if !inside {
            return false;
          }
        case BrokenFile =>
          if !Precompressed(path) {
            return false;
          }
        case File(content) =>
          if !Precompressed(path) {
            var logical := LogicalPath(path);
            var hash := HashFile(digest, content);
            manifest := manifest[logical := InjectHash(logical, hash)];
          }
      }
      ok := true;
    }
  }

  lemma {:induction false} StepInto(
    digest: seq<byte> -> seq<byte>, entries: seq<Entry>, above: seq<string>, m: map<string, string>)
    requires forall bytes :: |digest(bytes)| >= 4
    requires entries != []
    ensures var node, path := entries[0].node, above + [entries[0].name];
            && (Walkable(entries, above) <==>
                  && NodeReadable(node) && Walkable(entries[1..], above)
                  && forall f | f in NodeFiles(node, path) ::
                       f.path != [] && !Precompressed(f.path) ==> f.content.Some?)
            && Recorded(digest, Files(entries, above), m)
               == Recorded(digest, Files(entries[1..], above), Recorded(digest, NodeFiles(node, path), m))
  {
    var node, path := entries[0].node, above + [entries[0].name];
    RecordedAppend(digest, NodeFiles(node, path), Files(entries[1..], above), m);
  }

  method Production(digest: seq<byte> -> seq<byte>, root: string, entries: Option<seq<Entry>>)
    returns (a: Option<Assets>)
    requires forall bytes :: |digest(bytes)| >= 4
    ensures a.Some? <==> entries.Some? && Walkable(entries.value, [])
    ensures a.Some? ==> a.value == Hashed(root, Recorded(digest, Files(entries.value, []), map[]))
  {
    if entries.None? {
      return None;
    }
    var builder := new ManifestBuilder(digest);
    var ok := builder.WalkFiles(entries.value, []);
    a := if ok then Some(Hashed(root, builder.manifest)) else None;
  }

  // ---- What the manifest holds -----------------------------------------------------------------

  /** A file of the tree that the manifest must list, by path. */
  predicate Listed(entries: seq<Entry>, path: seq<string>, content: seq<byte>) {
    path != [] && !Precompressed(path) && Lookup(entries, path) == Some(File(content))
  }

  /** Recording distinct paths: the keys are their names and each keeps its own hash. */
  lemma {:induction false} RecordedEntries(
    digest: seq<byte> -> seq<byte>, found: seq<Found>, m: map<string, string>)
    requires forall bytes :: |digest(bytes)| >= 4
    requires forall f | f in found :: f.path != [] && AreComponents(f.path)
    requires forall f, g | f in found && g in found && f.path == g.path :: f == g
    ensures var m' := Recorded(digest, found, m);
            && (forall f | f in found && !Precompressed(f.path) && f.content.Some? ::
                  JoinPath(f.path) in m'
                  && m'[JoinPath(f.path)] == InjectHash(JoinPath(f.path), ShortHash(digest, f.content.value)))
            && (forall l | l in m' ::
                  || (l in m && m'[l] == m[l])
                  || exists f | f in found :: !Precompressed(f.path) && f.content.Some? && l == JoinPath(f.path))
    decreases |found|
  {
    if found == [] {
    } else {
      var head, rest := found[0], found[1..];
      assert found == [head] + rest;
      var m1 := Record(digest, head, m);
      RecordedEntries(digest, rest, m1);
      LogicalPathOfComponents(head.path);
      var m' := Recorded(digest, found, m);
      if !Precompressed(head.path) && head.content.Some? {
        var l := JoinPath(head.path);
        RecordedKeeps(digest, rest, m1, head);
      }
    }
  }

  /** A recorded file is not overwritten by files of other paths. */
  lemma {:induction false} RecordedKeeps(
    digest: seq<byte> -> seq<byte>, found: seq<Found>, m: map<string, string>, g: Found)
    requires forall bytes :: |digest(bytes)| >= 4
    requires forall f | f in found :: f.path != [] && AreComponents(f.path)
    requires AreComponents(g.path) && forall f | f in found && f.path == g.path :: f == g
    requires g.path != [] && !Precompressed(g.path) && g.content.Some?
    requires JoinPath(g.path) in m
    requires m[JoinPath(g.path)] == InjectHash(JoinPath(g.path), ShortHash(digest, g.content.value))
    ensures JoinPath(g.path) in Recorded(digest, found, m)
    ensures Recorded(digest, found, m)[JoinPath(g.path)] == m[JoinPath(g.path)]
    decreases |found|
  {
    if found == [] {
    } else {
      var f := found[0];
      LogicalPathOfComponents(f.path);
      if JoinPath(f.path) == JoinPath(g.path) {
        JoinPathInjective(f.path, g.path);
      }
      assert forall h | h in found[1..] :: h in found;
      RecordedKeeps(digest, found[1..], Record(digest, f, m), g);
    }
  }

  /** Manifest exactness: whatever order the directories enumerate, the keys are exactly
      the paths of the files that are not precompressed siblings, and each maps to its
      path with the short hash of its own whole content. */
  lemma {:induction false} ManifestIsExact(digest: seq<byte> -> seq<byte>, entries: seq<Entry>)
    requires forall bytes :: |digest(bytes)| >= 4
    requires WellFormed(entries) && Walkable(entries, [])
    ensures var m := Recorded(digest, Files(entries, []), map[]);
            && (forall path, content | Listed(entries, path, content) ::
                  JoinPath(path) in m && m[JoinPath(path)] == InjectHash(JoinPath(path), ShortHash(digest, content)))
            && (forall l | l in m :: exists path, content :: Listed(entries, path, content) && l == JoinPath(path))
            && HashedNames(m)
  {
    var found := Files(entries, []);
    forall f | f in found
      ensures f.path != [] && AreComponents(f.path) && Lookup(entries, f.path) == Some(FileNode(f.content))
    {
      FilesAreLookups(entries, [], f);
      assert f.path[0..] == f.path;
      LookupComponents(entries, f.path);
    }
    RecordedEntries(digest, found, map[]);
    var m := Recorded(digest, found, map[]);
    forall path, content | Listed(entries, path, content)
      ensures JoinPath(path) in m
      ensures m[JoinPath(path)] == InjectHash(JoinPath(path), ShortHash(digest, content))
    {
      FilesAreLookups(entries, [], Found(path, Some(content)));
      assert path[0..] == path;
      assert Found(path, Some(content)) in found;
    }
    forall l | l in m
      ensures exists path, content :: Listed(entries, path, content) && l == JoinPath(path)
      ensures exists h :: IsShortHash(h) && m[l] == InjectHash(l, h)
    {
      var f :| f in found && !Precompressed(f.path) && f.content.Some? && l == JoinPath(f.path);
      assert Listed(entries, f.path, f.content.value);
      assert IsShortHash(ShortHash(digest, f.content.value));
    }
  }

  /** A sibling that a compressor left beside a file. */
  predicate IsSibling(path: seq<string>) {
    path != [] &&
    var name := path[|path| - 1];
    |name| >= 3 && (name[|name| - 3..] == ".gz" || name[|name| - 3..] == ".br")
  }

  /** Exactly when there is a manifest: no path leads to a directory that cannot be opened,
      nor to a file that cannot be read and is no compressed sibling. */
  lemma {:induction false} WalkableIff(entries: seq<Entry>)
    requires WellFormed(entries)
    ensures Walkable(entries, []) <==>
            forall path ::
              && Lookup(entries, path) != Some(BrokenDir)
              && (Lookup(entries, path) == Some(BrokenFile) ==> IsSibling(path))
  {
    hide WellFormed, Readable, Files, Lookup;
    ReadableIffNoBrokenDir(entries);
    NothingAtRoot(entries);
    forall path
      ensures path != [] && Lookup(entries, path) == Some(BrokenFile) <==> Found(path, None) in Files(entries, [])
    {
      FilesAreLookups(entries, [], Found(path, None));
      assert path[0..] == path;
    }
    forall f | f in Files(entries, []) && f.content.None? ensures f == Found(f.path, None) {
    }
    forall path | path != [] ensures Precompressed(path) <==> IsSibling(path) {
    }
  }

  lemma NothingAtRoot(entries: seq<Entry>)
    ensures Lookup(entries, []) == None
  {
  }

  /** What the manifest says of a file, in full: its path with the first four bytes of
      its content's digest in hexadecimal before the extension, or at the end. */
  lemma {:induction false} ManifestNames(
    digest: seq<byte> -> seq<byte>, entries: seq<Entry>, path: seq<string>, content: seq<byte>,
    stem: string, ext: string)
    returns (hash: string)
    requires forall bytes :: |digest(bytes)| >= 4
    requires WellFormed(entries) && Walkable(entries, [])
    requires Lookup(entries, path) == Some(File(content)) && !IsSibling(path)
    ensures Spells(hash, digest(content)[..4])
    ensures var m, name := Recorded(digest, Files(entries, []), map[]), JoinPath(path);
            && name in m
            && (name == stem + "." + ext && '.' !in ext ==> m[name] == stem + "." + hash + "." + ext)
            && ('.' !in name ==> m[name] == name + "." + hash)
  {
    hide Recorded, Files, WellFormed, Walkable, InjectHash, JoinPath, HexPrefix, Spells;
    hash := ShortHash(digest, content);
    HexPrefixSpells(digest(content), 4);
    ManifestIsExact(digest, entries);
    NothingAtRoot(entries);
    assert Listed(entries, path, content);
    var name := JoinPath(path);
    if name == stem + "." + ext && '.' !in ext {
      HashedNameIs(stem, ext, hash);
    }
    HashedNameIs(name, "", hash);
  }

  /** Whether the walk succeeds does not depend on the order. */
  lemma {:induction false} WalkableReordered(a: seq<Entry>, b: seq<Entry>)
    requires WellFormed(a) && WellFormed(b) && Reordered(a, b)
    ensures Walkable(a, []) <==> Walkable(b, [])
  {
    hide Reordered, WellFormed, Files, Readable, Precompressed;
    ReadableReordered(a, b);
    forall f ensures f in Files(a, []) <==> f in Files(b, []) {
      FilesReordered(a, b, f);
    }
  }

  lemma {:induction false} ListedReordered(a: seq<Entry>, b: seq<Entry>, path: seq<string>, content: seq<byte>)
    requires WellFormed(a) && WellFormed(b) && Reordered(a, b)
    ensures Listed(a, path, content) <==> Listed(b, path, content)
  {
    hide Reordered, WellFormed, Lookup, Precompressed;
    LookupReordered(a, b, path);
  }

  /** The order in which directories enumerate never shows: neither in whether there is
      a manifest, nor in the manifest. */
  lemma {:induction false} ManifestIgnoresOrder(
    digest: seq<byte> -> seq<byte>, a: seq<Entry>, b: seq<Entry>)
    requires forall bytes :: |digest(bytes)| >= 4
    requires WellFormed(a) && WellFormed(b) && Reordered(a, b)
    ensures Walkable(a, []) <==> Walkable(b, [])
    ensures Walkable(a, []) ==> Recorded(digest, Files(a, []), map[]) == Recorded(digest, Files(b, []), map[])
  {
    hide *;
    WalkableReordered(a, b);
    if Walkable(a, []) {
      ManifestIsExact(digest, a);
      ManifestIsExact(digest, b);
      var ma, mb := Recorded(digest, Files(a, []), map[]), Recorded(digest, Files(b, []), map[]);
      forall l | l in ma ensures l in mb && mb[l] == ma[l] {
        var path, content :| Listed(a, path, content) && l == JoinPath(path);
        ListedReordered(a, b, path, content);
      }
      forall l | l in mb ensures l in ma {
        var path, content :| Listed(b, path, content) && l == JoinPath(path);
        ListedReordered(a, b, path, content);
      }
    }
  }
}
