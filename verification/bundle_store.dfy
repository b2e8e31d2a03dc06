/**
 The bundle store: reading and writing bundles of practice files, the content hash that
 names a bundle, and the `active.json` file that names the bundle in use.
 */
module BundleStore {
  import opened Outcomes
  import opened Json
  import opened Runtime
  import opened PyStr
  import opened Disk
  import opened Models

  const Fence := "---\n"

  // ----- Front matter -----

  /**
   `_parse_frontmatter(text)`: the stripped front matter and the body with its leading
   newlines removed, when the text opens with a fence and has a closing fence; otherwise no
   front matter and the text unchanged.
   */
  function ParseFrontmatter(text: string): (r: (string, string))
    ensures !StartsWith(text, Fence) ==> r == ("", text)
    ensures r.0 == Strip(r.0)
    ensures r.1 == [] || r.1[0] != '\n' || r == ("", text)
  {
    if !StartsWith(text, Fence) then ("", text)
    else
      var parts := Split(text, Fence, 2);
      if |parts| < 3 then ("", text)
      else
        StripIdempotent(parts[1]);
        (Strip(parts[1]), LStripChar(parts[2], '\n'))
  }

  /** The first fence-free part `a` ends at the second fence of `"---\n" + a + "---\n" + tail`. */
  lemma SplitFenced(a: string, tail: string)
    requires !Contains(a, Fence)
    ensures Split(Fence + a + Fence + tail, Fence, 2) == ["", a, tail]
  {
    var s := Fence + a + Fence + tail;
    var rest := a + Fence + tail;
    assert s[..4] == Fence && s[4..] == rest;
    SplitStep(s, Fence, 0, 2);
    FenceFirstAfter(a, tail);
    SplitStep(rest, Fence, |a|, 1);
    assert Split(tail, Fence, 0) == [tail];
  }

  /** In `a + "---\n" + tail` with `a` fence-free, the first fence closes `a`. */
  lemma FenceFirstAfter(a: string, tail: string)
    requires !Contains(a, Fence)
    ensures var rest := a + Fence + tail;
            && OccursAt(rest, Fence, |a|)
            && (forall i :: 0 <= i < |a| ==> !OccursAt(rest, Fence, i))
            && rest[..|a|] == a && rest[|a| + |Fence|..] == tail
  {
    var rest := a + Fence + tail;
    forall i | 0 <= i < |a| ensures !OccursAt(rest, Fence, i) {
      FenceNotBefore(a, tail, i);
    }
    assert rest[|a|..|a| + 4] == Fence;
    assert rest[..|a|] == a && rest[|a| + 4..] == tail;
  }

  /** No fence starts inside a fence-free `a` placed before a fence. */
  lemma FenceNotBefore(a: string, tail: string, i: nat)
    requires !Contains(a, Fence) && i < |a|
    ensures !OccursAt(a + Fence + tail, Fence, i)
  {
    var rest := a + Fence + tail;
    if i + 4 <= |a| {
      assert rest[i..i + 4] == a[i..i + 4];
      NotContainsAt(a, Fence, i);
    } else {
      var k := i + 3 - |a|;
      assert 0 <= k < 3 && rest[i + 3] == Fence[k];
      assert Fence[k] == '-' by {
        assert Fence[0] == '-' && Fence[1] == '-' && Fence[2] == '-';
      }
      assert i + 4 > |rest| || rest[i..i + 4][3] == rest[i + 3];
    }
  }

  /** Parsing a text built around two fences recovers the stripped middle and the tail. */
  lemma ParseFenced(a: string, tail: string)
    requires !Contains(a, Fence)
    ensures ParseFrontmatter(Fence + a + Fence + tail) == (Strip(a), LStripChar(tail, '\n'))
  {
    SplitFenced(a, tail);
    assert StartsWith(Fence + a + Fence + tail, Fence);
  }

  /** An opening fence that is never closed gives no front matter and the text unchanged. */
  lemma ParseUnclosed(text: string)
    requires StartsWith(text, Fence) && !Contains(text[|Fence|..], Fence)
    ensures ParseFrontmatter(text) == ("", text)
  {
    assert OccursAt(text, Fence, 0);
    FindFromAt(text, Fence, 0, 0);
    assert text[|Fence|..] == text[0 + |Fence|..];
    assert Split(text, Fence, 2) == [text[..0]] + Split(text[|Fence|..], Fence, 1);
    assert Split(text[|Fence|..], Fence, 1) == [text[|Fence|..]];
  }

  /** Front matter whose rendering can be parsed back: stripped, with no fence inside it. */
  predicate FenceFree(fm: string) {
    fm == Strip(fm) && !Contains(fm + "\n", Fence)
  }

  /**
   `render` then `_parse_frontmatter` gives back the front matter and a stripped body, as
   long as a body without front matter does not itself open with a fence.
   */
  lemma ParseRender(p: Practice)
    requires p.body == Strip(p.body)
    requires Strip(p.frontmatter) != "" ==> !Contains(Strip(p.frontmatter) + "\n", Fence)
    requires Strip(p.frontmatter) == "" ==> !StartsWith(p.body, Fence)
    ensures ParseFrontmatter(Render(p)) == (Strip(p.frontmatter), p.body)
  {
    var fm := Strip(p.frontmatter);
    if fm != "" {
      var a := fm + "\n";
      assert Render(p) == "---\n" + fm + "\n---\n\n" + p.body;
      FencedShape(fm, p.body);
      ParseFenced(a, "\n" + p.body);
      StripIdempotent(p.frontmatter);
      NewlineSpace();
      StripAppendSpace(fm, '\n');
      assert ("\n" + p.body)[1..] == p.body;
      assert p.body == [] || p.body[0] != '\n';
      assert LStripChar(p.body, '\n') == p.body;
    }
  }

  /** The rendered text read as two fences around the front matter line. */
  lemma FencedShape(fm: string, body: string)
    ensures "---\n" + fm + "\n---\n\n" + body == Fence + (fm + "\n") + Fence + ("\n" + body)
  {
  }

  /**
   `_extract_name(frontmatter, fallback)`: the stripped value of the first line whose key,
   stripped and lower-cased, is "name"; the fallback when that value is empty or no such line
   exists.
   */
  function ExtractName(fm: string, fallback: string): (r: string)
    ensures r == fallback || (r != "" && r == Strip(r))
  {
    NameFromLines(SplitLines(fm), fallback)
  }

  function NameFromLines(lines: seq<string>, fallback: string): (r: string)
    ensures r == fallback || (r != "" && r == Strip(r))
    decreases |lines|
  {
    if |lines| == 0 then fallback
    else if !Contains(lines[0], ":") then NameFromLines(lines[1..], fallback)
    else
      var kv := Split(lines[0], ":", 1);
      if Lower(Strip(kv[0])) == "name" then
        var name := Strip(kv[1]);
        StripIdempotent(kv[1]);
        if name == "" then fallback else name
      else NameFromLines(lines[1..], fallback)
  }

  /** A line `_extract_name` takes the name from: it has a colon and its key is "name" in any case. */
  predicate NameKey(line: string) {
    Contains(line, ":") && Lower(Strip(Split(line, ":", 1)[0])) == "name"
  }

  /** The stripped text after the first colon of a name line. */
  function NameValue(line: string): string
    requires NameKey(line)
  {
    Strip(Split(line, ":", 1)[1])
  }

  /** Without a name line the fallback is the name. */
  lemma {:induction false} NoNameLine(lines: seq<string>, fallback: string)
    requires forall i :: 0 <= i < |lines| ==> !NameKey(lines[i])
    ensures NameFromLines(lines, fallback) == fallback
    decreases |lines|
  {
    if |lines| > 0 {
      assert !NameKey(lines[0]);
      NoNameLine(lines[1..], fallback);
    }
  }

  /**
   The first name line decides: its value, or the fallback when that value is empty, whatever
   the later lines say.
   */
  lemma {:induction false} FirstNameLine(lines: seq<string>, fallback: string, j: nat)
    requires j < |lines| && NameKey(lines[j])
    requires forall i :: 0 <= i < j ==> !NameKey(lines[i])
    ensures NameFromLines(lines, fallback) == if NameValue(lines[j]) == "" then fallback else NameValue(lines[j])
    decreases j
  {
    if j > 0 {
      assert !NameKey(lines[0]);
      FirstNameLine(lines[1..], fallback, j - 1);
    }
  }

  /**
   On a front matter made of lines without boundaries, `_extract_name` reads those very lines,
   so `NoNameLine` and `FirstNameLine` give its result.
   */
  lemma ExtractNameOfLines(lines: seq<string>, fallback: string)
    requires forall k :: 0 <= k < |lines| ==> NoBreak(lines[k])
    requires |lines| > 0 ==> lines[|lines| - 1] != ""
    ensures ExtractName(Join("\n", lines), fallback) == NameFromLines(lines, fallback)
  {
    SplitLinesJoin(lines);
  }

  /** A front matter whose first line is `Name: <n>` names the practice `n`. */
  lemma ExtractNameFirstLine(n: string, rest: string, fallback: string)
    requires n != "" && n == Strip(n)
    requires forall i :: 0 <= i < |n| ==> !IsLineBreak(n[i])
    ensures ExtractName("Name: " + n + "\n" + rest, fallback) == n
  {
    var line := "Name: " + n;
    assert NoBreak(line) by {
      forall i | 0 <= i < |line| ensures !IsLineBreak(line[i]) {
        if i >= 6 {
          assert line[i] == n[i - 6];
        }
      }
    }
    SplitLinesCons(line, rest);
    NameLine(n, SplitLines(rest), fallback);
  }

  lemma NameLine(n: string, more: seq<string>, fallback: string)
    requires n != "" && n == Strip(n)
    ensures NameFromLines(["Name: " + n] + more, fallback) == n
  {
    var line := "Name: " + n;
    var lines := [line] + more;
    assert lines[0] == line;
    assert Contains(line, ":") by {
      NameColon(n);
    }
    SplitNameLine(n);
    var kv := Split(line, ":", 1);
    NameKeyLower();
    assert Lower(Strip(kv[0])) == "name";
    StripLeadingSpace(n);
    assert Strip(kv[1]) == n;
  }


  /** The first colon of `Name: n` is the one after `Name`. */
  lemma NameColon(n: string)
    ensures FindFrom("Name: " + n, ":", 0) == Some(4)
  {
    var line := "Name: " + n;
    assert OccursAt(line, ":", 4);
    forall i | 0 <= i < 4 ensures !OccursAt(line, ":", i) {
      assert line[i..i + 1] == [line[i]];
    }
    FindFromAt(line, ":", 0, 4);
  }

  /** `"Name: n".split(":", 1)` is `["Name", " n"]`. */
  lemma SplitNameLine(n: string)
    ensures Split("Name: " + n, ":", 1) == ["Name", " " + n]
  {
    var line := "Name: " + n;
    NameColon(n);
    var kv := Split(line, ":", 1);
    assert kv[0] == line[..4] == "Name";
    assert |kv| == 2;
    assert Join(":", kv) == kv[0] + ":" + kv[1];
    assert line == "Name" + ":" + (" " + n);
  }

  lemma StripLeadingSpace(n: string)
    requires n != "" && n == Strip(n)
    ensures Strip(" " + n) == n
  {
    NewlineSpace();
    assert (" " + n)[1..] == n;
    assert LStrip(" " + n) == LStrip(n);
    assert !IsSpace(n[0]);
    assert LStrip(n) == n;
  }

  // ----- Loading -----

  /** A practice as `load_bundle` builds it from one file's text. */
  function LoadPractice(fileName: string, text: string, path: Path): (p: Practice)
    ensures p.fileName == fileName && p.path == Some(path)
    ensures (p.frontmatter, ParseFrontmatter(text).1) == ParseFrontmatter(text)
    ensures p.body == Strip(ParseFrontmatter(text).1)
    ensures p.name == ExtractName(p.frontmatter, Stem(fileName))
  {
    var (fm, body) := ParseFrontmatter(text);
    Practice(fileName, ExtractName(fm, Stem(fileName)), fm, Strip(body), Some(path))
  }

  /** The entries of `dir` that the pattern `*.md` matches. */
  function MarkdownNames(fs: FileSystem, dir: Path): (r: set<string>)
    ensures forall n :: n in r <==> n in Entries(fs, dir) && EndsWith(n, ".md")
  {
    set n | n in Entries(fs, dir) && EndsWith(n, ".md")
  }

  /** The `practices` directory of a bundle. */
  function PracticesDir(bundlePath: Path): Path {
    bundlePath + ["practices"]
  }

  /** Every name in `names` read from `dir` and parsed. */
  function LoadPractices(fs: FileSystem, dir: Path, names: set<string>): (r: map<string, Practice>)
    requires forall n :: n in names ==> dir + [n] in fs.files
    ensures r.Keys == names && WellKeyed(r)
    ensures forall n :: n in r ==> r[n] == LoadPractice(n, Translate(fs.files[dir + [n]]), dir + [n])
  {
    map n | n in names :: LoadPractice(n, Translate(fs.files[dir + [n]]), dir + [n])
  }

  /**
   `load_bundle(bundle_path)`: every `*.md` file of the `practices` directory parsed into a
   practice under its file name, and `meta.json` when it exists and decodes (`{}` when it
   does not decode). A matched entry that is a directory makes the read fail.
   */
  function LoadBundle(h: Host, fs: FileSystem, bundlePath: Path): (r: Result<Bundle>)
    ensures !Exists(fs, bundlePath) ==> r == Err(FileNotFound)
    ensures Exists(fs, bundlePath) && !Exists(fs, PracticesDir(bundlePath)) ==> r == Err(FileNotFound)
    ensures r.Ok? ==> r.value.bundleId == Name(bundlePath) && r.value.path == bundlePath
    ensures r.Ok? ==> r.value.passthrough == map[]
    ensures r.Ok? ==> LoadMeta(h, fs, bundlePath + ["meta.json"]) == Ok(r.value.meta)
    ensures r.Ok? ==> forall n :: n in MarkdownNames(fs, PracticesDir(bundlePath)) ==> PracticesDir(bundlePath) + [n] in fs.files
    ensures r.Ok? ==> r.value.practices == LoadPractices(fs, PracticesDir(bundlePath), MarkdownNames(fs, PracticesDir(bundlePath)))
  {
    if !Exists(fs, bundlePath) then Err(FileNotFound)
    else
      var dir := PracticesDir(bundlePath);
      if !Exists(fs, dir) then Err(FileNotFound)
      else
        var names := MarkdownNames(fs, dir);
        if (exists n :: n in names && dir + [n] !in fs.files) then Err(IsADirectory)
        else
          var practices := LoadPractices(fs, dir, names);
          var meta :- LoadMeta(h, fs, bundlePath + ["meta.json"]);
          Ok(Bundle(Name(bundlePath), bundlePath, practices, map[], meta))
  }

  /** A `meta.json`-style file: its decoded value, `{}` when it is absent or does not decode. */
  function LoadMeta(h: Host, fs: FileSystem, path: Path): (r: Result<Json>)
    ensures !Exists(fs, path) ==> r == Ok(JObj([]))
    ensures path in fs.files ==>
              r == Ok(match h.loads(Translate(fs.files[path])) case Some(v) => v case None => JObj([]))
  {
    if !Exists(fs, path) then Ok(JObj([]))
    else
      var text :- ReadText(fs, path);
      match h.loads(text)
      case Some(v) => Ok(v)
      case None => Ok(JObj([]))
  }

  // ----- Building and hashing -----

  /**
   `build_bundle_from_seed(seed, updates)`: every seed practice keeps its name and front
   matter and takes its updated body if there is one; an update for a file the seed lacks
   adds a practice named after the file's stem with no front matter. Bodies are stripped.
   Id, path and meta come from the seed; passthrough files are not carried over.
   */
  function BuildFromSeed(seed: Bundle, updates: map<string, string>): (r: Bundle)
    ensures r.bundleId == seed.bundleId && r.path == seed.path && r.meta == seed.meta
    ensures r.passthrough == map[]
    ensures r.practices.Keys == seed.practices.Keys + updates.Keys
    ensures WellKeyed(r.practices)
    ensures forall k :: k in seed.practices ==>
              var p := r.practices[k];
              p.name == seed.practices[k].name && p.frontmatter == seed.practices[k].frontmatter
              && p.body == Strip(if k in updates then updates[k] else seed.practices[k].body)
              && p.path == None
    ensures forall k :: k in updates && k !in seed.practices ==>
              r.practices[k] == Practice(k, Stem(k), "", Strip(updates[k]), None)
  {
    Bundle(seed.bundleId, seed.path, BuildPractices(seed.practices, updates), map[], seed.meta)
  }

  function BuildPractices(seed: map<string, Practice>, updates: map<string, string>): (r: map<string, Practice>)
    ensures r.Keys == seed.Keys + updates.Keys
    ensures forall k :: k in r ==> r[k] == Built(seed, updates, k)
  {
    map k | k in seed.Keys + updates.Keys :: Built(seed, updates, k)
  }

  /** The practice `build_bundle_from_seed` files under `k`. */
  function Built(seed: map<string, Practice>, updates: map<string, string>, k: string): (p: Practice)
    requires k in seed || k in updates
    ensures p.fileName == k
  {
    if k in seed then
      var p := seed[k];
      Practice(k, p.name, p.frontmatter, Strip(if k in updates then updates[k] else p.body), None)
    else Practice(k, Stem(k), "", Strip(updates[k]), None)
  }

  /** Building twice with the same updates changes nothing more than building once. */
  lemma BuildIdempotent(seed: Bundle, updates: map<string, string>)
    ensures BuildFromSeed(BuildFromSeed(seed, updates), updates) == BuildFromSeed(seed, updates)
  {
    BuildPracticesIdempotent(seed.practices, updates);
  }

  lemma BuildPracticesIdempotent(seed: map<string, Practice>, updates: map<string, string>)
    ensures BuildPractices(BuildPractices(seed, updates), updates) == BuildPractices(seed, updates)
  {
    var m1 := BuildPractices(seed, updates);
    var m2 := BuildPractices(m1, updates);
    forall k | k in m1 ensures m2[k] == m1[k] {
      if k in updates {
        StripIdempotent(updates[k]);
      } else {
        StripIdempotent(seed[k].body);
      }
    }
    assert m2 == m1;
  }

  /** The bodies of `practices` in the order of `keys`. */
  function Bodies(practices: map<string, Practice>, keys: seq<string>): (r: seq<string>)
    requires forall i :: 0 <= i < |keys| ==> keys[i] in practices
    ensures |r| == |keys| && forall i :: 0 <= i < |keys| ==> r[i] == practices[keys[i]].body
  {
    seq(|keys|, i requires 0 <= i < |keys| => practices[keys[i]].body)
  }

  /** The text `hash_bundle` digests: the bodies concatenated in sorted file-name order. */
  function HashInput(practices: map<string, Practice>): string {
    var keys := SortedElems(practices.Keys);
    Concat(Bodies(practices, keys))
  }

  /** `hash_bundle(practices)`: SHA-256 of the bodies in sorted file-name order. */
  function HashBundle(h: Host, practices: map<string, Practice>): Digest {
    h.sha256(HashInput(practices))
  }

  /** The hash reads nothing but the file names and bodies: names and front matter do not count. */
  lemma HashOnlyBodies(h: Host, a: map<string, Practice>, b: map<string, Practice>)
    requires a.Keys == b.Keys
    requires forall k :: k in a ==> a[k].body == b[k].body
    ensures HashBundle(h, a) == HashBundle(h, b)
  {
    var keys := SortedElems(a.Keys);
    assert SortedElems(b.Keys) == keys;
    BodiesAgree(a, b, keys);
    assert HashInput(a) == HashInput(b);
  }

  lemma BodiesAgree(a: map<string, Practice>, b: map<string, Practice>, keys: seq<string>)
    requires forall i :: 0 <= i < |keys| ==> keys[i] in a && keys[i] in b && a[keys[i]].body == b[keys[i]].body
    ensures Bodies(a, keys) == Bodies(b, keys)
  {
  }

  /**
   Concatenating without a separator lets two different splittings of the same text share a
   hash: `{"a.md": "xy", "b.md": ""}` and `{"a.md": "x", "b.md": "y"}` hash alike.
   */
  lemma HashIgnoresBoundaries(h: Host)
    ensures var a := map["a.md" := Practice("a.md", "a", "", "xy", None), "b.md" := Practice("b.md", "b", "", "", None)];
            var b := map["a.md" := Practice("a.md", "a", "", "x", None), "b.md" := Practice("b.md", "b", "", "y", None)];
            a != b && HashBundle(h, a) == HashBundle(h, b)
  {
    var a := map["a.md" := Practice("a.md", "a", "", "xy", None), "b.md" := Practice("b.md", "b", "", "", None)];
    var b := map["a.md" := Practice("a.md", "a", "", "x", None), "b.md" := Practice("b.md", "b", "", "y", None)];
    HashInputPair(a);
    HashInputPair(b);
    SplitXY();
    assert a["a.md"].body != b["a.md"].body;
  }

  lemma SplitXY()
    ensures "xy" + "" == "x" + "y"
  {
  }

  /** The hash input of a two-file bundle `a.md`, `b.md`. */
  lemma HashInputPair(p: map<string, Practice>)
    requires p.Keys == {"a.md", "b.md"}
    ensures HashInput(p) == p["a.md"].body + p["b.md"].body
  {
    SortedPair(p.Keys);
    var bodies := Bodies(p, ["a.md", "b.md"]);
    assert bodies == [p["a.md"].body, p["b.md"].body];
    ConcatPair(p["a.md"].body, p["b.md"].body);
  }

  /** `f"gen{generation}_{content_hash[:8]}"`. */
  function BundleId(generation: string, hash: Digest): (r: string)
    ensures StartsWith(r, "gen") && EndsWith(r, "_" + hash[..8])
    ensures |r| == |generation| + 12
  {
    "gen" + generation + "_" + hash[..8]
  }

  /** Two ids agree exactly when their generations and the first eight hash digits agree. */
  lemma BundleIdInjective(g1: string, h1: Digest, g2: string, h2: Digest)
    ensures BundleId(g1, h1) == BundleId(g2, h2) <==> g1 == g2 && h1[..8] == h2[..8]
  {
    if BundleId(g1, h1) == BundleId(g2, h2) {
      var r := BundleId(g1, h1);
      assert |g1| == |g2|;
      assert g1 == r[3..3 + |g1|] == g2;
      assert h1[..8] == r[|r| - 8..] == h2[..8];
    }
  }

  // ----- Writing -----

  /** Each practice rendered into `dir` under its file name (the key, for a well-keyed map). */
  function WritePractices(fs: FileSystem, dir: Path, practices: map<string, Practice>): (r: FileSystem)
    requires WellKeyed(practices)
    ensures r == fs.(files := fs.files + Rendered(dir, practices))
  {
    fs.(files := fs.files + Rendered(dir, practices))
  }

  /** The practice files as written: `dir / practice.file_name` holds `practice.render()`. */
  function Rendered(dir: Path, practices: map<string, Practice>): (r: map<Path, string>)
    requires WellKeyed(practices)
    ensures r.Keys == set k | k in practices :: Child(dir, k)
    ensures forall k :: k in practices ==> Child(dir, k) in r && r[Child(dir, k)] == Render(practices[k])
  {
    // `practice.file_name` is the key in a well-keyed map
    ChildInjective(dir);
    map k | k in practices :: Child(dir, k) := Render(practices[k])
  }

  /** The metadata `write_bundle` records, with the caller's entries applied over it. */
  function BundleMeta(id: string, parentId: string, generation: string, createdAt: string,
                      hash: Digest, metadata: Fields): (r: Json)
    ensures r.JObj?
    ensures forall k :: !HasKey(metadata, k) ==>
              Lookup(r.fields, k) == Lookup(BaseMeta(id, parentId, generation, createdAt, hash), k)
    ensures DistinctKeys(metadata) ==> forall k :: HasKey(metadata, k) ==> Lookup(r.fields, k) == Lookup(metadata, k)
  {
    var base := BaseMeta(id, parentId, generation, createdAt, hash);
    var fields := if |metadata| > 0 then Update(base, metadata) else base;
    forall k | DistinctKeys(metadata) && HasKey(metadata, k) ensures Lookup(fields, k) == Lookup(metadata, k) {
      UpdateOverrides(base, metadata, k);
    }
    JObj(fields)
  }

  function BaseMeta(id: string, parentId: string, generation: string, createdAt: string, hash: Digest): (r: Fields)
    ensures Lookup(r, "id") == Some(JStr(id)) && Lookup(r, "hash") == Some(JStr(hash))
    ensures Lookup(r, "parent") == Some(JStr(parentId)) && Lookup(r, "generation") == Some(JStr(generation))
    ensures WellFormed(JObj(r))
  {
    var r := [("id", JStr(id)), ("parent", JStr(parentId)), ("generation", JStr(generation)),
              ("created_at", JStr(createdAt)), ("hash", JStr(hash))];
    LookupAt(r, 0);
    LookupAt(r, 1);
    LookupAt(r, 2);
    LookupAt(r, 4);
    r
  }

  lemma BundleMetaWellFormed(id: string, parentId: string, generation: string, createdAt: string,
                             hash: Digest, metadata: Fields)
    requires WellFormed(JObj(metadata))
    ensures WellFormed(BundleMeta(id, parentId, generation, createdAt, hash, metadata))
  {
    UpdateWellFormed(BaseMeta(id, parentId, generation, createdAt, hash), metadata);
  }

  /** Where `write_bundle` puts a bundle: `bundle_root / f"gen{generation}_{hash[:8]}"`. */
  function BundleDir(h: Host, root: Path, practices: map<string, Practice>, generation: string): (r: Path)
    ensures |r| == |root| + 1 && r[..|root|] == root && Name(r) == BundleId(generation, HashBundle(h, practices))
  {
    root + [BundleId(generation, HashBundle(h, practices))]
  }

  /** The `meta.json` content `write_bundle` records for `practices`. */
  function MetaFor(h: Host, practices: map<string, Practice>, parentId: string, generation: string,
                   metadata: Fields, createdAt: string): Json
  {
    var hash := HashBundle(h, practices);
    BundleMeta(BundleId(generation, hash), parentId, generation, createdAt, hash, metadata)
  }

  /**
   The disk after the root is created and, when the bundle directory `root / id` is new, its
   practice files are written.
   */
  function WithPractices(fs: FileSystem, root: Path, id: string, practices: map<string, Practice>): (r: FileSystem)
    requires WellKeyed(practices)
    ensures MkDirs(fs, root).dirs <= r.dirs
    ensures Exists(r, root + [id])
    ensures Exists(fs, root + [id]) ==> r == MkDirs(fs, root)
    ensures r.files == if Exists(fs, root + [id]) then fs.files else fs.files + Rendered(PracticesDir(root + [id]), practices)
    ensures !Exists(fs, root + [id]) ==>
              var dir := PracticesDir(root + [id]);
              r == WritePractices(MkDirs(MkDirs(fs, root), dir), dir, practices)
  {
    var fs1 := MkDirs(fs, root);
    var bp := root + [id];
    MkDirsKeeps(fs, root, bp);
    if Exists(fs, bp) then fs1
    else
      assert bp == PracticesDir(bp)[..|bp|];
      WritePractices(MkDirs(fs1, PracticesDir(bp)), PracticesDir(bp), practices)
  }

  /**
   The practice files written one after another into `dir`: a target that is a directory
   (the empty file name names `dir` itself) raises IsADirectoryError. `dir` has just been made,
   so no other write error can happen (see `PracticeTargets`).
   */
  function WritePracticeFiles(fs: FileSystem, dir: Path, practices: map<string, Practice>): (r: Result<FileSystem>)
    requires WellKeyed(practices)
    ensures r.Ok? <==> forall k :: k in practices ==> Child(dir, k) !in fs.dirs
    ensures r.Err? ==> r.error == IsADirectory
    ensures r.Ok? ==> r.value == WritePractices(fs, dir, practices)
  {
    if exists k :: k in practices && Child(dir, k) in fs.dirs then Err(IsADirectory)
    else Ok(WritePractices(fs, dir, practices))
  }

  /** In a made directory a practice target fails alone exactly when `WritePracticeFiles` fails. */
  lemma PracticeTargets(fs: FileSystem, dir: Path, practices: map<string, Practice>, k: string)
    requires WellKeyed(practices) && dir in fs.dirs && NoFileOnPath(fs, dir) && k in practices
    ensures WriteFile(fs, Child(dir, k), Render(practices[k])).Err? ==> WritePracticeFiles(fs, dir, practices).Err?
    ensures WritePracticeFiles(fs, dir, practices).Err? ==>
              exists j :: j in practices && WriteFile(fs, Child(dir, j), Render(practices[j])) == Err(IsADirectory)
  {
    WriteInto(fs, dir, k, Render(practices[k]));
    if WritePracticeFiles(fs, dir, practices).Err? {
      var j :| j in practices && Child(dir, j) in fs.dirs;
      WriteInto(fs, dir, j, Render(practices[j]));
    }
  }

  /** `(bundle_path / "practices").mkdir(...)`, then the practice files. */
  function Stage(fs: FileSystem, dir: Path, practices: map<string, Practice>): (r: Result<FileSystem>)
    requires WellKeyed(practices)
    ensures MakeDirs(fs, dir, true).Err? ==> r == Err(MakeDirs(fs, dir, true).error)
    ensures MakeDirs(fs, dir, true).Ok? ==> r == WritePracticeFiles(MkDirs(fs, dir), dir, practices)
  {
    match MakeDirs(fs, dir, true)
    case Err(e) => Err(e)
    case Ok(made) => WritePracticeFiles(made, dir, practices)
  }

  /**
   The disk work of `write_bundle` for the bundle directory `root / id` and the `meta.json`
   text `text`: the root is made, an existing bundle directory is refused unless `existOk`,
   a new one is staged, and `meta.json` is written. Every error of these steps leaves.
   */
  function Persist(fs: FileSystem, root: Path, id: string, practices: map<string, Practice>, text: string,
                   existOk: bool): (r: Result<FileSystem>)
    requires WellKeyed(practices)
    ensures MakeDirs(fs, root, true).Err? ==> r == Err(MakeDirs(fs, root, true).error)
    ensures NoFileOnPath(fs, root) && Exists(fs, root + [id]) && !existOk ==> r == Err(FileExists)
    ensures NoFileOnPath(fs, root) && root + [id] in fs.files && existOk ==> r == Err(NotADirectory)
    ensures r.Ok? ==> r.value == WriteText(WithPractices(fs, root, id, practices), root + [id, "meta.json"], text)
  {
    var bp := root + [id];
    var mp := root + [id, "meta.json"];
    PersistSteps(fs, root, id, practices, text);
    match MakeDirs(fs, root, true)
    case Err(e) => Err(e)
    case Ok(fs1) =>
      if Exists(fs, bp) && !existOk then Err(FileExists)
      else
        match (if Exists(fs, bp) then Ok(fs1) else Stage(fs1, PracticesDir(bp), practices))
        case Err(e) => Err(e)
        case Ok(fs2) => WriteFile(fs2, mp, text)
  }

  /** The facts each step of `Persist` rests on, stated over the disk after the root is made. */
  lemma PersistSteps(fs: FileSystem, root: Path, id: string, practices: map<string, Practice>, text: string)
    requires WellKeyed(practices)
    ensures MakeDirs(fs, root, true).Ok? ==> MakeDirs(fs, root, true).value == MkDirs(fs, root)
    ensures Exists(fs, root + [id]) ==> WithPractices(fs, root, id, practices) == MkDirs(fs, root)
    ensures root + [id] in fs.files ==> WriteFile(MkDirs(fs, root), root + [id, "meta.json"], text) == Err(NotADirectory)
    ensures var dir := PracticesDir(root + [id]);
            var staged := Stage(MkDirs(fs, root), dir, practices);
            !Exists(fs, root + [id]) && staged.Ok? ==> staged.value == WithPractices(fs, root, id, practices)
  {
    MetaBelow(fs, root, id);
  }

  /** `meta.json` lies directly inside the bundle directory, below the root. */
  lemma MetaBelow(fs: FileSystem, root: Path, id: string)
    ensures (root + [id, "meta.json"])[..|root| + 1] == root + [id]
    ensures root + [id] + ["meta.json"] == root + [id, "meta.json"]
    ensures root + [id] in fs.files ==> FileAbove(MkDirs(fs, root), root + [id, "meta.json"])
    ensures Exists(MkDirs(fs, root), root + [id]) <==> Exists(fs, root + [id])
  {
    MkDirsKeeps(fs, root, root + [id]);
  }

  /**
   `write_bundle(...)`: the disk work of `Persist` for the directory named by the content
   hash, and the bundle it returns. `createdAt` stands for the clock reading.
   */
  function WriteBundle(h: Host, fs: FileSystem, root: Path, b: Bundle, parentId: string,
                       generation: string, metadata: Fields, existOk: bool, createdAt: string)
    : (r: Result<(FileSystem, Bundle)>)
    requires WellKeyed(b.practices)
    ensures MakeDirs(fs, root, true).Err? ==> r == Err(MakeDirs(fs, root, true).error)
    ensures NoFileOnPath(fs, root) && Exists(fs, BundleDir(h, root, b.practices, generation)) && !existOk ==>
              r == Err(FileExists)
    ensures NoFileOnPath(fs, root) && BundleDir(h, root, b.practices, generation) in fs.files && existOk ==>
              r == Err(NotADirectory)
    ensures r.Ok? ==> r.value.1 == Bundle(Name(BundleDir(h, root, b.practices, generation)),
                                          BundleDir(h, root, b.practices, generation), b.practices, map[],
                                          MetaFor(h, b.practices, parentId, generation, metadata, createdAt))
    ensures r.Ok? ==> r.value.0 == WriteText(
              WithPractices(fs, root, Name(BundleDir(h, root, b.practices, generation)), b.practices),
              BundleDir(h, root, b.practices, generation) + ["meta.json"],
              h.dumps(MetaFor(h, b.practices, parentId, generation, metadata, createdAt)))
  {
    var id := BundleId(generation, HashBundle(h, b.practices));
    var meta := MetaFor(h, b.practices, parentId, generation, metadata, createdAt);
    assert root + [id] + ["meta.json"] == root + [id, "meta.json"];
    match Persist(fs, root, id, b.practices, h.dumps(meta), existOk)
    case Err(e) => Err(e)
    case Ok(fs') => Ok((fs', Bundle(id, root + [id], b.practices, map[], meta)))
  }

  /** Over an existing bundle directory, with `exist_ok`, the disk work past the root is the `meta.json` write. */
  lemma PersistExisting(fs: FileSystem, root: Path, id: string, practices: map<string, Practice>, text: string)
    requires WellKeyed(practices) && NoFileOnPath(fs, root) && Exists(fs, root + [id])
    ensures Persist(fs, root, id, practices, text, true) == WriteFile(MkDirs(fs, root), root + [id, "meta.json"], text)
  {
    MetaBelow(fs, root, id);
    assert MakeDirs(fs, root, true) == Ok(MkDirs(fs, root));
  }

  /** Into a new bundle directory, the disk work past the root is the staging, then the `meta.json` write. */
  lemma PersistNew(fs: FileSystem, root: Path, id: string, practices: map<string, Practice>, text: string,
                   existOk: bool)
    requires WellKeyed(practices) && NoFileOnPath(fs, root) && !Exists(fs, root + [id])
    ensures var staged := Stage(MkDirs(fs, root), PracticesDir(root + [id]), practices);
            && (staged.Err? ==> Persist(fs, root, id, practices, text, existOk) == Err(staged.error))
            && (staged.Ok? ==> Persist(fs, root, id, practices, text, existOk)
                                 == WriteFile(staged.value, root + [id, "meta.json"], text))
  {
    MetaBelow(fs, root, id);
    assert MakeDirs(fs, root, true) == Ok(MkDirs(fs, root));
  }

  /**
   On a real disk the disk work succeeds exactly when the root has no file on its way and
   either the bundle directory is new and no practice has an empty file name, or it is an
   existing directory, `exist_ok` holds and `meta.json` there is not a directory. The other
   failures past the root are IsADirectoryError.
   */
  lemma PersistOutcome(fs: FileSystem, root: Path, id: string, practices: map<string, Practice>, text: string,
                       existOk: bool)
    requires WellKeyed(practices) && Closed(fs)
    ensures var bp := root + [id];
            var r := Persist(fs, root, id, practices, text, existOk);
            && (r.Ok? <==> && NoFileOnPath(fs, root)
                           && (Exists(fs, bp) ==> existOk && bp !in fs.files && bp + ["meta.json"] !in fs.dirs)
                           && (!Exists(fs, bp) ==> "" !in practices))
            && (r.Err? && NoFileOnPath(fs, root) && (existOk || !Exists(fs, bp)) && bp !in fs.files ==>
                  r.error == IsADirectory)
  {
    var bp := root + [id];
    if NoFileOnPath(fs, root) {
      if !Exists(fs, bp) {
        FreshOutcome(fs, root, id, practices, text, existOk);
      } else if existOk && bp !in fs.files {
        ExistingOutcome(fs, root, id, practices, text);
        MetaBelow(fs, root, id);
      }
    }
  }

  /** An existing bundle directory with `exist_ok`: only `meta.json` is written. */
  lemma ExistingOutcome(fs: FileSystem, root: Path, id: string, practices: map<string, Practice>, text: string)
    requires WellKeyed(practices) && NoFileOnPath(fs, root) && root + [id] in fs.dirs && root + [id] !in fs.files
    ensures Persist(fs, root, id, practices, text, true)
              == if root + [id, "meta.json"] in fs.dirs then Err(IsADirectory)
                 else Ok(WriteText(MkDirs(fs, root), root + [id, "meta.json"], text))
  {
    var bp := root + [id];
    var fs1 := MkDirs(fs, root);
    PersistExisting(fs, root, id, practices, text);
    MkDirsKeeps(fs, root, bp);
    MkDirsKeeps(fs, root, bp + ["meta.json"]);
    NoFileOnPathExtend(fs1, root, id);
    WriteInto(fs1, bp, "meta.json", text);
    assert Child(bp, "meta.json") == bp + ["meta.json"] == root + [id, "meta.json"];
  }

  /** A new bundle directory: it fails exactly on an empty practice file name. */
  lemma FreshOutcome(fs: FileSystem, root: Path, id: string, practices: map<string, Practice>, text: string,
                     existOk: bool)
    requires WellKeyed(practices) && Closed(fs) && NoFileOnPath(fs, root) && !Exists(fs, root + [id])
    ensures var r := Persist(fs, root, id, practices, text, existOk);
            && (r.Ok? <==> "" !in practices)
            && (r.Err? ==> r.error == IsADirectory)
  {
    var dir := PracticesDir(root + [id]);
    var fs1 := MkDirs(fs, root);
    var staged := Stage(fs1, dir, practices);
    PersistNew(fs, root, id, practices, text, existOk);
    FreshStage(fs, root, id, practices);
    if "" !in practices {
      var fs2 := WritePractices(MkDirs(fs1, dir), dir, practices);
      assert staged == Ok(fs2);
      FreshMeta(fs, root, id, practices, text);
      MetaBelow(fs, root, id);
      assert WriteFile(fs2, root + [id, "meta.json"], text).Ok?;
    }
  }

  /** Staging a new bundle directory on a real disk fails exactly on an empty file name. */
  lemma FreshStage(fs: FileSystem, root: Path, id: string, practices: map<string, Practice>)
    requires WellKeyed(practices) && Closed(fs) && NoFileOnPath(fs, root) && !Exists(fs, root + [id])
    ensures var fs1 := MkDirs(fs, root);
            var dir := PracticesDir(root + [id]);
            Stage(fs1, dir, practices)
              == if "" in practices then Err(IsADirectory) else Ok(WritePractices(MkDirs(fs1, dir), dir, practices))
  {
    var bp := root + [id];
    var dir := PracticesDir(bp);
    var fs1 := MkDirs(fs, root);
    MkDirsKeeps(fs, root, bp);
    MkDirsKeeps(fs, root, dir);
    NothingBelowAbsent(fs, bp, dir);
    NoFileOnPathExtend(fs1, root, id);
    NoFileOnPathExtend(fs1, bp, "practices");
    assert MakeDirs(fs1, dir, true) == Ok(MkDirs(fs1, dir));
    var made := MkDirs(fs1, dir);
    forall k | k in practices && k != "" ensures Child(dir, k) !in made.dirs {
      assert Child(dir, k)[..|bp|] == bp;
      NothingBelowAbsent(fs, bp, Child(dir, k));
      MkDirsKeeps(fs1, dir, Child(dir, k));
    }
    if "" in practices {
      assert dir == dir[..|dir|];
      assert Child(dir, "") in made.dirs;
    }
  }

  /** After a fresh staging on a real disk, `meta.json` is written without error. */
  lemma FreshMeta(fs: FileSystem, root: Path, id: string, practices: map<string, Practice>, text: string)
    requires WellKeyed(practices) && Closed(fs) && NoFileOnPath(fs, root) && !Exists(fs, root + [id])
    ensures var bp := root + [id];
            var dir := PracticesDir(bp);
            var fs2 := WritePractices(MkDirs(MkDirs(fs, root), dir), dir, practices);
            WriteFile(fs2, bp + ["meta.json"], text) == Ok(WriteText(fs2, bp + ["meta.json"], text))
  {
    var bp := root + [id];
    var dir := PracticesDir(bp);
    var made := MkDirs(MkDirs(fs, root), dir);
    var fs2 := WritePractices(made, dir, practices);
    MadeForMeta(fs, root, id);
    forall q | q in Rendered(dir, practices) ensures |q| > |bp| {
      var k :| k in practices && q == Child(dir, k);
    }
    NoFileOnPathAdd(made, bp, Rendered(dir, practices));
    WriteInto(fs2, bp, "meta.json", text);
  }

  /** The two mkdirs of a fresh staging leave the bundle directory ready for `meta.json`. */
  lemma MadeForMeta(fs: FileSystem, root: Path, id: string)
    requires Closed(fs) && NoFileOnPath(fs, root) && !Exists(fs, root + [id])
    ensures var bp := root + [id];
            var made := MkDirs(MkDirs(fs, root), PracticesDir(bp));
            && bp in made.dirs && NoFileOnPath(made, bp) && bp + ["meta.json"] !in made.dirs
  {
    var bp := root + [id];
    var dir := PracticesDir(bp);
    var mp := bp + ["meta.json"];
    var fs1 := MkDirs(fs, root);
    MkDirsKeeps(fs, root, bp);
    MkDirsKeeps(fs, root, mp);
    MkDirsKeeps(fs1, dir, bp);
    MkDirsKeeps(fs1, dir, mp);
    NoFileOnPathExtend(fs1, root, id);
    assert bp == dir[..|bp|];
    assert mp[..|bp|] == bp;
    NothingBelowAbsent(fs, bp, mp);
  }

  /** `write_bundle` on a real disk: its outcome is that of `PersistOutcome` for the hashed name. */
  lemma WriteBundleOutcome(h: Host, fs: FileSystem, root: Path, b: Bundle, parentId: string,
                           generation: string, metadata: Fields, existOk: bool, createdAt: string)
    requires WellKeyed(b.practices) && Closed(fs)
    ensures var bp := BundleDir(h, root, b.practices, generation);
            var r := WriteBundle(h, fs, root, b, parentId, generation, metadata, existOk, createdAt);
            && (r.Ok? <==> && NoFileOnPath(fs, root)
                           && (Exists(fs, bp) ==> existOk && bp !in fs.files && bp + ["meta.json"] !in fs.dirs)
                           && (!Exists(fs, bp) ==> "" !in b.practices))
            && (r.Err? && NoFileOnPath(fs, root) && (existOk || !Exists(fs, bp)) && bp !in fs.files ==>
                  r.error == IsADirectory)
  {
    var id := BundleId(generation, HashBundle(h, b.practices));
    var meta := MetaFor(h, b.practices, parentId, generation, metadata, createdAt);
    PersistOutcome(fs, root, id, b.practices, h.dumps(meta), existOk);
  }

  /** Repeating the disk work with the same text, with `exist_ok`, leaves the disk as it was. */
  lemma PersistTwice(fs: FileSystem, root: Path, id: string, practices: map<string, Practice>, text: string)
    requires WellKeyed(practices) && Persist(fs, root, id, practices, text, true).Ok?
    ensures var fs' := Persist(fs, root, id, practices, text, true).value;
            Persist(fs', root, id, practices, text, true) == Ok(fs')
  {
    var bp := root + [id];
    var mp := bp + ["meta.json"];
    var mid := WithPractices(fs, root, id, practices);
    assert NoFileOnPath(fs, root);
    PersistMeta(fs, root, id, practices, text);
    var fs' := WriteText(mid, mp, text);
    assert mp == root + [id, "meta.json"];
    assert Persist(fs, root, id, practices, text, true).value == fs';
    StagedFiles(fs, root, id, practices, text);
    MkDirsPresent(fs', root);
    MkDirsKeeps(fs', root, bp);
    assert Exists(fs', bp);
    PersistExisting(fs', root, id, practices, text);
    WriteFileAgain(mid, mp, text, text);
    RewriteSame(mid, mp, text);
  }

  /** A successful disk work wrote `meta.json` into the staged disk without error. */
  lemma PersistMeta(fs: FileSystem, root: Path, id: string, practices: map<string, Practice>, text: string)
    requires WellKeyed(practices) && NoFileOnPath(fs, root) && Persist(fs, root, id, practices, text, true).Ok?
    ensures WriteFile(WithPractices(fs, root, id, practices), root + [id] + ["meta.json"], text).Ok?
  {
    var bp := root + [id];
    MetaBelow(fs, root, id);
    if Exists(fs, bp) {
      PersistExisting(fs, root, id, practices, text);
    } else {
      PersistNew(fs, root, id, practices, text, true);
    }
  }

  /** Staging a bundle and writing its `meta.json` add files only below the root. */
  lemma StagedFiles(fs: FileSystem, root: Path, id: string, practices: map<string, Practice>, text: string)
    requires WellKeyed(practices) && NoFileOnPath(fs, root)
    ensures NoFileOnPath(WriteText(WithPractices(fs, root, id, practices), root + [id, "meta.json"], text), root)
  {
    var dir := PracticesDir(root + [id]);
    var mid := WithPractices(fs, root, id, practices);
    forall q | q in Rendered(dir, practices) ensures |q| > |root| {
      var k :| k in practices && q == Child(dir, k);
    }
    NoFileOnPathAdd(fs, root, Rendered(dir, practices));
    assert NoFileOnPath(mid, root);
    NoFileOnPathAdd(mid, root, map[root + [id, "meta.json"] := text]);
  }

  /** Writing the same bundle again, with the same clock reading, leaves the disk as it was. */
  lemma WriteTwice(h: Host, fs: FileSystem, root: Path, b: Bundle, parentId: string,
                   generation: string, metadata: Fields, createdAt: string)
    requires WellKeyed(b.practices)
    requires WriteBundle(h, fs, root, b, parentId, generation, metadata, true, createdAt).Ok?
    ensures var first := WriteBundle(h, fs, root, b, parentId, generation, metadata, true, createdAt).value;
            WriteBundle(h, first.0, root, b, parentId, generation, metadata, true, createdAt) == Ok(first)
  {
    var id := BundleId(generation, HashBundle(h, b.practices));
    var meta := MetaFor(h, b.practices, parentId, generation, metadata, createdAt);
    PersistTwice(fs, root, id, b.practices, h.dumps(meta));
  }

  lemma RewriteSame(fs: FileSystem, p: Path, text: string)
    ensures WriteText(WriteText(fs, p, text), p, text) == WriteText(fs, p, text)
  {
    assert fs.files[p := text][p := text] == fs.files[p := text];
  }

  /** Creating directories that all exist changes nothing. */
  lemma MkDirsPresent(fs: FileSystem, p: Path)
    requires MkDirs(fs, p).dirs <= fs.dirs
    ensures MkDirs(fs, p) == fs
  {
  }

  /**
   A practice that survives a write and a reload unchanged (apart from its path): stripped
   front matter and body, no fence inside the front matter, no carriage return, a `.md`
   file name, and the name that the front matter or the file name gives.
   */
  predicate Reloadable(p: Practice) {
    && p.body == Strip(p.body) && p.frontmatter == Strip(p.frontmatter)
    && (p.frontmatter != "" ==> !Contains(p.frontmatter + "\n", Fence))
    && (p.frontmatter == "" ==> !StartsWith(p.body, Fence))
    && '\r' !in p.frontmatter && '\r' !in p.body
    && EndsWith(p.fileName, ".md")
    && p.name == ExtractName(p.frontmatter, Stem(p.fileName))
  }

  /** The practices with their `path` set to where they live in `dir`. */
  function WithPaths(practices: map<string, Practice>, dir: Path): (r: map<string, Practice>)
    ensures r.Keys == practices.Keys
    ensures forall k :: k in r ==> r[k] == practices[k].(path := Some(dir + [k]))
  {
    map k | k in practices :: practices[k].(path := Some(dir + [k]))
  }

  /** The disk `write_bundle` leaves when `bp` did not exist: practice files, then `meta.json`. */
  function FreshDisk(fs: FileSystem, root: Path, bp: Path, practices: map<string, Practice>, text: string)
    : (r: FileSystem)
    requires WellKeyed(practices)
    ensures r.files == (fs.files + Rendered(PracticesDir(bp), practices))[bp + ["meta.json"] := text]
    ensures r.dirs == MkDirs(MkDirs(fs, root), PracticesDir(bp)).dirs
  {
    var dir := PracticesDir(bp);
    WriteText(WritePractices(MkDirs(MkDirs(fs, root), dir), dir, practices), bp + ["meta.json"], text)
  }

  /** Before the practice files are written, nothing lies inside the fresh `practices` directory. */
  lemma FreshBelow(fs: FileSystem, root: Path, id: string, n: string)
    requires Closed(fs) && !Exists(fs, root + [id])
    ensures var dir := PracticesDir(root + [id]);
            !Exists(MkDirs(MkDirs(fs, root), dir), dir + [n])
  {
    var bp := root + [id];
    var q := PracticesDir(bp) + [n];
    assert q[..|bp|] == bp;
    NothingBelowAbsent(fs, bp, q);
  }

  /** The entries of the fresh `practices` directory are exactly the practices written. */
  lemma FreshEntry(fs: FileSystem, root: Path, id: string, practices: map<string, Practice>, text: string, n: string)
    requires Closed(fs) && !Exists(fs, root + [id])
    requires WellKeyed(practices) && forall k :: k in practices ==> k != ""
    ensures var bp := root + [id];
            Exists(FreshDisk(fs, root, bp, practices, text), PracticesDir(bp) + [n]) <==> n in practices
  {
    var bp := root + [id];
    var dir := PracticesDir(bp);
    var q := dir + [n];
    FreshBelow(fs, root, id, n);
    assert q != bp + ["meta.json"];
    if n in practices {
      assert Child(dir, n) == q;
    }
    if q in Rendered(dir, practices) {
      var k :| k in practices && q == Child(dir, k);
      assert q[|dir|] == k;
    }
  }

  lemma FreshEntries(fs: FileSystem, root: Path, id: string, practices: map<string, Practice>, text: string)
    requires Closed(fs) && !Exists(fs, root + [id])
    requires WellKeyed(practices) && forall k :: k in practices ==> k != ""
    ensures Entries(FreshDisk(fs, root, root + [id], practices, text), PracticesDir(root + [id])) == practices.Keys
  {
    var fs' := FreshDisk(fs, root, root + [id], practices, text);
    forall n ensures Exists(fs', PracticesDir(root + [id]) + [n]) <==> n in practices.Keys {
      FreshEntry(fs, root, id, practices, text, n);
    }
    EntriesExactly(fs', PracticesDir(root + [id]), practices.Keys);
  }

  /** Where a fresh write puts each practice file and `meta.json`. */
  lemma FreshFiles(fs: FileSystem, root: Path, bp: Path, practices: map<string, Practice>, text: string)
    requires WellKeyed(practices) && forall k :: k in practices ==> k != ""
    ensures var dir := PracticesDir(bp);
            var fs' := FreshDisk(fs, root, bp, practices, text);
            && (forall k :: k in practices ==> dir + [k] in fs'.files && fs'.files[dir + [k]] == Render(practices[k]))
            && bp + ["meta.json"] in fs'.files && fs'.files[bp + ["meta.json"]] == text
  {
    var dir := PracticesDir(bp);
    var files := FreshDisk(fs, root, bp, practices, text).files;
    var r := Rendered(dir, practices);
    forall k | k in practices ensures dir + [k] in files && files[dir + [k]] == Render(practices[k]) {
      assert Child(dir, k) == dir + [k];
      assert |dir + [k]| != |bp + ["meta.json"]|;
      MergedAt(fs.files, r, bp + ["meta.json"], text, dir + [k]);
    }
  }

  lemma FreshDirs(fs: FileSystem, root: Path, bp: Path, practices: map<string, Practice>, text: string)
    requires WellKeyed(practices) && |bp| > 0
    ensures bp in FreshDisk(fs, root, bp, practices, text).dirs
    ensures PracticesDir(bp) in FreshDisk(fs, root, bp, practices, text).dirs
  {
    var dir := PracticesDir(bp);
    var inner := MkDirs(fs, root);
    assert FreshDisk(fs, root, bp, practices, text).dirs == MkDirs(inner, dir).dirs;
    assert 0 < |bp| < |dir| && bp == dir[..|bp|];
    assert dir == dir[..|dir|];
  }

  /** An entry of `r` survives merging `r` over `files` and then writing another path. */
  lemma MergedAt(files: map<Path, string>, r: map<Path, string>, other: Path, text: string, q: Path)
    requires q in r && q != other
    ensures q in (files + r)[other := text] && (files + r)[other := text][q] == r[q]
  {
  }

  /** A reloadable practice reads back from its rendering as itself, located at `path`. */
  lemma ReloadPractice(p: Practice, path: Path)
    requires Reloadable(p)
    ensures LoadPractice(p.fileName, Translate(Render(p)), path) == p.(path := Some(path))
  {
    RenderNoReturn(p);
    ParseRender(p);
    var (fm, body) := ParseFrontmatter(Render(p));
    assert fm == p.frontmatter && body == p.body;
  }

  /** Rendering adds no carriage return, so reading the file back translates nothing. */
  lemma RenderNoReturn(p: Practice)
    requires '\r' !in p.frontmatter && '\r' !in p.body && p.frontmatter == Strip(p.frontmatter)
    ensures Translate(Render(p)) == Render(p)
  {
    if p.frontmatter != "" {
      FencedNoReturn(p.frontmatter, p.body);
    }
  }

  lemma FencedNoReturn(fm: string, body: string)
    requires '\r' !in fm && '\r' !in body
    ensures '\r' !in Fence + fm + "\n---\n\n" + body
  {
    assert '\r' !in Fence && '\r' !in "\n---\n\n";
  }

  /** A disk holding `practices` rendered in `dir` and nothing else there. */
  ghost predicate LaidOut(fs: FileSystem, dir: Path, practices: map<string, Practice>) {
    && Entries(fs, dir) == practices.Keys
    && forall k :: k in practices ==> dir + [k] in fs.files && fs.files[dir + [k]] == Render(practices[k])
  }

  /** The practices of such a directory read back as written. */
  lemma LoadLaidOut(fs: FileSystem, dir: Path, practices: map<string, Practice>)
    requires LaidOut(fs, dir, practices)
    requires WellKeyed(practices) && forall k :: k in practices ==> Reloadable(practices[k])
    ensures MarkdownNames(fs, dir) == practices.Keys
    ensures forall n :: n in practices ==> dir + [n] in fs.files
    ensures LoadPractices(fs, dir, practices.Keys) == WithPaths(practices, dir)
  {
    MarkdownLaidOut(fs, dir, practices);
    var loaded := LoadPractices(fs, dir, practices.Keys);
    forall k | k in practices ensures loaded[k] == WithPaths(practices, dir)[k] {
      LoadLaidOutAt(fs, dir, practices, k);
    }
    LoadedAgree(fs, dir, practices);
  }

  lemma LoadedAgree(fs: FileSystem, dir: Path, practices: map<string, Practice>)
    requires forall n :: n in practices ==> dir + [n] in fs.files
    requires forall k :: k in practices ==> LoadPractices(fs, dir, practices.Keys)[k] == WithPaths(practices, dir)[k]
    ensures LoadPractices(fs, dir, practices.Keys) == WithPaths(practices, dir)
  {
    MapsAgree(LoadPractices(fs, dir, practices.Keys), WithPaths(practices, dir));
  }

  lemma MapsAgree<K, V>(a: map<K, V>, b: map<K, V>)
    requires a.Keys == b.Keys && forall k :: k in a ==> a[k] == b[k]
    ensures a == b
  {
  }

  lemma LoadLaidOutAt(fs: FileSystem, dir: Path, practices: map<string, Practice>, k: string)
    requires forall n :: n in practices ==> dir + [n] in fs.files
    requires k in practices && fs.files[dir + [k]] == Render(practices[k])
    requires practices[k].fileName == k && Reloadable(practices[k])
    ensures LoadPractices(fs, dir, practices.Keys)[k] == WithPaths(practices, dir)[k]
  {
    var p := practices[k];
    ReloadPractice(p, dir + [k]);
  }

  lemma MarkdownLaidOut(fs: FileSystem, dir: Path, practices: map<string, Practice>)
    requires Entries(fs, dir) == practices.Keys
    requires WellKeyed(practices) && forall k :: k in practices ==> Reloadable(practices[k])
    ensures MarkdownNames(fs, dir) == practices.Keys
  {
    forall k | k in practices ensures EndsWith(k, ".md") {
      assert practices[k].fileName == k;
    }
  }

  /** Loading a bundle directory laid out with `practices` and `meta.json` holding `meta`. */
  lemma LoadWritten(h: Host, fs: FileSystem, bp: Path, practices: map<string, Practice>, meta: Json)
    requires JsonSound(h) && WellFormed(meta)
    requires bp in fs.dirs && PracticesDir(bp) in fs.dirs && LaidOut(fs, PracticesDir(bp), practices)
    requires bp + ["meta.json"] in fs.files && fs.files[bp + ["meta.json"]] == h.dumps(meta)
    requires WellKeyed(practices) && forall k :: k in practices ==> Reloadable(practices[k])
    ensures LoadBundle(h, fs, bp) == Ok(Bundle(Name(bp), bp, WithPaths(practices, PracticesDir(bp)), map[], meta))
  {
    LoadLaidOut(fs, PracticesDir(bp), practices);
    assert h.loads(h.dumps(meta)) == Some(meta) && '\r' !in h.dumps(meta);
    assert LoadMeta(h, fs, bp + ["meta.json"]) == Ok(meta);
  }

  /** A fresh write lays out its practices, its directories and its `meta.json`. */
  lemma FreshWritten(fs: FileSystem, root: Path, id: string, practices: map<string, Practice>, text: string)
    requires Closed(fs) && !Exists(fs, root + [id])
    requires WellKeyed(practices) && forall k :: k in practices ==> Reloadable(practices[k])
    ensures var bp := root + [id];
            var fs' := FreshDisk(fs, root, bp, practices, text);
            && bp in fs'.dirs && PracticesDir(bp) in fs'.dirs && LaidOut(fs', PracticesDir(bp), practices)
            && bp + ["meta.json"] in fs'.files && fs'.files[bp + ["meta.json"]] == text
  {
    var bp := root + [id];
    forall k | k in practices ensures k != "" {
      assert practices[k].fileName == k;
    }
    FreshDirs(fs, root, bp, practices, text);
    FreshFiles(fs, root, bp, practices, text);
    FreshEntries(fs, root, id, practices, text);
  }

  /** Into a directory that does not exist, `write_bundle` makes the fresh layout. */
  lemma WriteFresh(h: Host, fs: FileSystem, root: Path, b: Bundle, parentId: string,
                   generation: string, metadata: Fields, existOk: bool, createdAt: string)
    requires WellKeyed(b.practices) && Closed(fs) && NoFileOnPath(fs, root) && "" !in b.practices
    requires !Exists(fs, BundleDir(h, root, b.practices, generation))
    ensures var bp := BundleDir(h, root, b.practices, generation);
            var meta := MetaFor(h, b.practices, parentId, generation, metadata, createdAt);
            WriteBundle(h, fs, root, b, parentId, generation, metadata, existOk, createdAt)
              == Ok((FreshDisk(fs, root, bp, b.practices, h.dumps(meta)), Bundle(Name(bp), bp, b.practices, map[], meta)))
  {
    var id := BundleId(generation, HashBundle(h, b.practices));
    var meta := MetaFor(h, b.practices, parentId, generation, metadata, createdAt);
    FreshOutcome(fs, root, id, b.practices, h.dumps(meta), existOk);
    MetaBelow(fs, root, id);
  }

  /**
   Writing a bundle into a directory that does not yet exist and loading it back gives the
   bundle `write_bundle` returned, with each practice's path set to its file.
   */
  lemma LoadAfterWrite(h: Host, fs: FileSystem, root: Path, b: Bundle, parentId: string,
                       generation: string, metadata: Fields, existOk: bool, createdAt: string)
    requires JsonSound(h) && Closed(fs) && WellFormed(JObj(metadata))
    requires WellKeyed(b.practices) && forall k :: k in b.practices ==> Reloadable(b.practices[k])
    requires NoFileOnPath(fs, root) && !Exists(fs, BundleDir(h, root, b.practices, generation))
    ensures WriteBundle(h, fs, root, b, parentId, generation, metadata, existOk, createdAt).Ok?
    ensures var w := WriteBundle(h, fs, root, b, parentId, generation, metadata, existOk, createdAt).value;
            LoadBundle(h, w.0, w.1.path) == Ok(w.1.(practices := WithPaths(w.1.practices, PracticesDir(w.1.path))))
  {
    var bp := BundleDir(h, root, b.practices, generation);
    var id := Name(bp);
    var meta := MetaFor(h, b.practices, parentId, generation, metadata, createdAt);
    assert bp == root + [id];
    forall k | k in b.practices ensures k != "" {
      assert b.practices[k].fileName == k;
    }
    WriteFresh(h, fs, root, b, parentId, generation, metadata, existOk, createdAt);
    BundleMetaWellFormed(id, parentId, generation, createdAt, HashBundle(h, b.practices), metadata);
    assert WellFormed(meta);
    LoadFresh(h, fs, root, id, b.practices, meta);
    var w := WriteBundle(h, fs, root, b, parentId, generation, metadata, existOk, createdAt).value;
    assert w.0 == FreshDisk(fs, root, root + [id], b.practices, h.dumps(meta));
    assert w.1 == Bundle(id, root + [id], b.practices, map[], meta);
  }

  /** Loading what a write into the fresh directory `root / id` left behind. */
  lemma LoadFresh(h: Host, fs: FileSystem, root: Path, id: string, practices: map<string, Practice>, meta: Json)
    requires JsonSound(h) && Closed(fs) && WellFormed(meta) && !Exists(fs, root + [id])
    requires WellKeyed(practices) && forall k :: k in practices ==> Reloadable(practices[k])
    ensures LoadBundle(h, FreshDisk(fs, root, root + [id], practices, h.dumps(meta)), root + [id])
         == Ok(Bundle(id, root + [id], WithPaths(practices, PracticesDir(root + [id])), map[], meta))
  {
    FreshWritten(fs, root, id, practices, h.dumps(meta));
    LoadWritten(h, FreshDisk(fs, root, root + [id], practices, h.dumps(meta)), root + [id], practices, meta);
  }

  // ----- The active bundle file -----

  /** `k in d and bool(d[k])`. */
  predicate TruthyAt(fields: Fields, k: string) {
    HasKey(fields, k) && Truthy(Lookup(fields, k).value)
  }

  /**
   The bundle id a decoded `active.json` names: `bundleId` when it is truthy, `bundle_id`
   otherwise, as text. `None` stands for text that does not decode.
   */
  function ActiveIdOf(h: Host, decoded: Option<Json>): (r: Result<string>)
    ensures decoded.None? ==> r == Err(ValueError)
    ensures decoded.Some? && !decoded.value.JObj? ==> r == Err(AttributeError)
    ensures decoded.Some? && decoded.value.JObj? ==>
              var f := decoded.value.fields;
              && (TruthyAt(f, "bundleId") ==> r == Ok(Str(h, Lookup(f, "bundleId").value)))
              && (!TruthyAt(f, "bundleId") && TruthyAt(f, "bundle_id") ==> r == Ok(Str(h, Lookup(f, "bundle_id").value)))
              && (!TruthyAt(f, "bundleId") && !TruthyAt(f, "bundle_id") ==> r == Err(ValueError))
  {
    match decoded
    case None => Err(ValueError)
    case Some(data) =>
      if !data.JObj? then Err(AttributeError)
      else
        var id := Or(GetOr(data.fields, "bundleId", JNull), GetOr(data.fields, "bundle_id", JNull));
        if Truthy(id) then Ok(Str(h, id)) else Err(ValueError)
  }

  /** `read_active_bundle_id(active_json_path)`. */
  function ReadActiveBundleId(h: Host, fs: FileSystem, p: Path): (r: Result<string>)
    ensures !Exists(fs, p) ==> r == Err(FileNotFound)
    ensures p in fs.dirs && p !in fs.files ==> r == Err(IsADirectory)
    ensures p in fs.files ==> r == ActiveIdOf(h, h.loads(Translate(fs.files[p])))
  {
    if !Exists(fs, p) then Err(FileNotFound)
    else
      var text :- ReadText(fs, p);
      ActiveIdOf(h, h.loads(text))
  }

  /** The object `{"bundleId": bundle_id, **metadata}`. */
  function ActivePayload(id: string, metadata: Fields): Fields {
    Update([("bundleId", JStr(id))], metadata)
  }

  /**
   `update_active_json(active_json_path, bundle_id, metadata)`: the parent directories are
   made and the payload written. A regular file on the way, or a directory at the path, raises.
   */
  function UpdateActiveJson(h: Host, fs: FileSystem, p: Path, id: string, metadata: Fields): (r: Result<FileSystem>)
    ensures MakeDirs(fs, Parent(p), true).Err? ==> r == Err(MakeDirs(fs, Parent(p), true).error)
    ensures NoFileOnPath(fs, Parent(p)) && (|p| == 0 || p in fs.dirs) ==> r == Err(IsADirectory)
    ensures r.Ok? <==> NoFileOnPath(fs, Parent(p)) && |p| > 0 && p !in fs.dirs
    ensures r.Ok? ==> r.value.files == fs.files[p := h.dumps(JObj(ActivePayload(id, metadata)))]
    ensures r.Ok? ==> fs.dirs <= r.value.dirs
    ensures r.Ok? ==> forall i :: 0 < i < |p| ==> p[..i] in r.value.dirs
  {
    WriteWithParents(fs, p, h.dumps(JObj(ActivePayload(id, metadata))))
  }

  /**
   The payload holds every entry of `metadata`, and `bundleId` maps to the given id unless
   `metadata` has its own.
   */
  lemma PayloadEntries(id: string, metadata: Fields)
    requires DistinctKeys(metadata)
    ensures Lookup(ActivePayload(id, metadata), "bundleId")
         == (if HasKey(metadata, "bundleId") then Lookup(metadata, "bundleId") else Some(JStr(id)))
    ensures forall k :: k != "bundleId" ==> Lookup(ActivePayload(id, metadata), k) == Lookup(metadata, k)
  {
    var base: Fields := [("bundleId", JStr(id))];
    forall k | HasKey(metadata, k) ensures Lookup(ActivePayload(id, metadata), k) == Lookup(metadata, k) {
      UpdateOverrides(base, metadata, k);
    }
  }

  lemma PayloadWellFormed(id: string, metadata: Fields)
    requires WellFormed(JObj(metadata))
    ensures WellFormed(JObj(ActivePayload(id, metadata)))
  {
    UpdateWellFormed([("bundleId", JStr(id))], metadata);
  }

  /** Reading `active.json` after `update_active_json` decodes the payload just written. */
  lemma ReadAfterUpdate(h: Host, fs: FileSystem, p: Path, id: string, metadata: Fields)
    requires JsonSound(h) && WellFormed(JObj(metadata))
    ensures var u := UpdateActiveJson(h, fs, p, id, metadata);
            u.Ok? ==> ReadActiveBundleId(h, u.value, p) == ActiveIdOf(h, Some(JObj(ActivePayload(id, metadata))))
  {
    PayloadWellFormed(id, metadata);
    var text := h.dumps(JObj(ActivePayload(id, metadata)));
    assert h.loads(text) == Some(JObj(ActivePayload(id, metadata))) && '\r' !in text;
  }

  /** The id written is the id read back, when `metadata` does not carry its own `bundleId`. */
  lemma ActiveRoundTrip(h: Host, fs: FileSystem, p: Path, id: string, metadata: Fields)
    requires JsonSound(h) && WellFormed(JObj(metadata))
    requires id != "" && !HasKey(metadata, "bundleId")
    ensures var u := UpdateActiveJson(h, fs, p, id, metadata);
            u.Ok? ==> ReadActiveBundleId(h, u.value, p) == Ok(id)
  {
    ReadAfterUpdate(h, fs, p, id, metadata);
    PayloadNamesId(id, metadata);
  }

  lemma PayloadNamesId(id: string, metadata: Fields)
    requires DistinctKeys(metadata) && id != "" && !HasKey(metadata, "bundleId")
    ensures TruthyAt(ActivePayload(id, metadata), "bundleId")
    ensures Lookup(ActivePayload(id, metadata), "bundleId") == Some(JStr(id))
  {
    PayloadEntries(id, metadata);
  }

  /** A `bundleId` in `metadata` replaces the id given to `update_active_json`. */
  lemma ActiveMetadataWins(h: Host, fs: FileSystem, p: Path, id: string, metadata: Fields)
    requires JsonSound(h) && WellFormed(JObj(metadata)) && TruthyAt(metadata, "bundleId")
    ensures var u := UpdateActiveJson(h, fs, p, id, metadata);
            u.Ok? ==> ReadActiveBundleId(h, u.value, p) == Ok(Str(h, Lookup(metadata, "bundleId").value))
  {
    ReadAfterUpdate(h, fs, p, id, metadata);
    PayloadEntries(id, metadata);
  }

  /**
   With an empty id and no `bundleId` in `metadata`, the read falls back to `bundle_id`,
   and fails with ValueError when that is not truthy either.
   */
  lemma ActiveEmptyId(h: Host, fs: FileSystem, p: Path, metadata: Fields)
    requires JsonSound(h) && WellFormed(JObj(metadata)) && !HasKey(metadata, "bundleId")
    ensures var u := UpdateActiveJson(h, fs, p, "", metadata);
            u.Ok? && TruthyAt(metadata, "bundle_id") ==>
              ReadActiveBundleId(h, u.value, p) == Ok(Str(h, Lookup(metadata, "bundle_id").value))
    ensures var u := UpdateActiveJson(h, fs, p, "", metadata);
            u.Ok? && !TruthyAt(metadata, "bundle_id") ==> ReadActiveBundleId(h, u.value, p) == Err(ValueError)
  {
    ReadAfterUpdate(h, fs, p, "", metadata);
    PayloadEmptyId(metadata);
  }

  lemma PayloadEmptyId(metadata: Fields)
    requires DistinctKeys(metadata) && !HasKey(metadata, "bundleId")
    ensures !TruthyAt(ActivePayload("", metadata), "bundleId")
    ensures TruthyAt(ActivePayload("", metadata), "bundle_id") == TruthyAt(metadata, "bundle_id")
    ensures Lookup(ActivePayload("", metadata), "bundle_id") == Lookup(metadata, "bundle_id")
  {
    PayloadEntries("", metadata);
    var pl := ActivePayload("", metadata);
    assert Lookup(pl, "bundleId") == Some(JStr(""));
    assert "bundle_id" != "bundleId" by {
      assert "bundle_id"[6] != "bundleId"[6];
    }
    assert Lookup(pl, "bundle_id") == Lookup(metadata, "bundle_id");
  }
}
