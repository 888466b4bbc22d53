/**
 * Python's `str.split(sep, maxsplit)` and `sep.join(parts)` for a one-character
 * separator, as the grep post-processing uses them, and the module-key rule
 * `"/".join(filename.split("/", 2)[:2])` built from them.
 */
module Strings {

  /** Position of the first `c` in `s`, or `|s|` when `s` holds no `c`. */
  function IndexOf(s: string, c: char): (i: nat)
    ensures i <= |s|
    ensures i < |s| ==> s[i] == c
  {
    if s == [] then 0
    else if s[0] == c then 0
    else 1 + IndexOf(s[1..], c)
  }

  /** No `c` comes before the position IndexOf finds. */
  lemma {:induction false} IndexOfFirst(s: string, c: char)
    ensures c !in s[..IndexOf(s, c)]
  {
    if s != [] && s[0] != c {
      IndexOfFirst(s[1..], c);
      assert s[..IndexOf(s, c)] == [s[0]] + s[1..][..IndexOf(s[1..], c)];
    }
  }

  /**
   * `s.split(sep, maxsplit)`: cut `s` at the first `maxsplit` occurrences of
   * `sep`, left to right; the last piece keeps the rest of `s` unsplit.
   */
  function Split(s: string, sep: char, maxsplit: nat): (parts: seq<string>)
    decreases maxsplit
  {
    var i := IndexOf(s, sep);
    if maxsplit == 0 || i == |s| then [s]
    else [s[..i]] + Split(s[i + 1..], sep, maxsplit - 1)
  }

  /** `sep.join(parts)`. */
  function Join(sep: char, parts: seq<string>): string
  {
    if |parts| == 0 then ""
    else if |parts| == 1 then parts[0]
    else parts[0] + [sep] + Join(sep, parts[1..])
  }

  /** The first `n` elements of `parts`, or all of them when there are fewer (`parts[:n]`). */
  function Take<T>(parts: seq<T>, n: nat): (r: seq<T>)
    ensures |r| == if |parts| < n then |parts| else n
    ensures r <= parts
  {
    if |parts| < n then parts else parts[..n]
  }

  /** Number of occurrences of `c` in `s`. */
  function Occurs(s: string, c: char): nat
  {
    multiset(s)[c]
  }

  /** The module key of a file name: its first two `/`-separated segments, rejoined. */
  function ModuleKey(filename: string): string
  {
    Join('/', Take(Split(filename, '/', 2), 2))
  }

  /** Split yields at least one and at most `maxsplit + 1` pieces, and only the last may hold `sep`. */
  lemma {:induction false} SplitShape(s: string, sep: char, maxsplit: nat)
    ensures var parts := Split(s, sep, maxsplit);
      && 1 <= |parts| <= maxsplit + 1
      && (forall k :: 0 <= k < |parts| - 1 ==> sep !in parts[k])
      && (|parts| <= maxsplit ==> sep !in parts[|parts| - 1])
    decreases maxsplit
  {
    var i := IndexOf(s, sep);
    IndexOfFirst(s, sep);
    if maxsplit == 0 || i == |s| {
      if i == |s| {
        assert s[..i] == s;
      }
    } else {
      SplitShape(s[i + 1..], sep, maxsplit - 1);
      var rest := Split(s[i + 1..], sep, maxsplit - 1);
      var parts := [s[..i]] + rest;
      assert Split(s, sep, maxsplit) == parts;
      forall k | 0 <= k < |parts| - 1 ensures sep !in parts[k] {
        if k > 0 { assert parts[k] == rest[k - 1]; }
      }
    }
  }

  /** Joining a first piece to at least one more puts one separator between them. */
  lemma JoinCons(sep: char, first: string, rest: seq<string>)
    requires |rest| >= 1
    ensures Join(sep, [first] + rest) == first + [sep] + Join(sep, rest)
  {
    assert ([first] + rest)[1..] == rest;
  }

  /** Round trip: joining the pieces with the separator gives back the original string. */
  lemma {:induction false} JoinSplit(s: string, sep: char, maxsplit: nat)
    ensures Join(sep, Split(s, sep, maxsplit)) == s
    decreases maxsplit
  {
    if maxsplit == 0 {
      assert Split(s, sep, maxsplit) == [s];
    } else if sep !in s {
      SplitNone(s, sep, maxsplit);
    } else {
      var before, after := FirstSep(s, sep);
      JoinSplit(after, sep, maxsplit - 1);
      JoinSplitStep(before, sep, after, maxsplit);
    }
  }

  /** One step of the round trip: a first cut whose rest already round-trips. */
  lemma JoinSplitStep(before: string, sep: char, after: string, maxsplit: nat)
    requires sep !in before && maxsplit > 0
    requires Join(sep, Split(after, sep, maxsplit - 1)) == after
    ensures Join(sep, Split(before + [sep] + after, sep, maxsplit)) == before + [sep] + after
  {
    var rest := Split(after, sep, maxsplit - 1);
    SplitAt(before, sep, after, maxsplit);
    SplitShape(after, sep, maxsplit - 1);
    JoinCons(sep, before, rest);
  }

  /** A string holding `sep` is the text before its first `sep`, the `sep`, and the rest. */
  lemma FirstSep(s: string, sep: char) returns (before: string, after: string)
    requires sep in s
    ensures sep !in before && s == before + [sep] + after
  {
    var i := IndexOf(s, sep);
    IndexOfFirst(s, sep);
    before, after := s[..i], s[i + 1..];
    assert s == before + [sep] + after;
  }

  /** With no separator in `s` there is nothing to split. */
  lemma SplitNone(s: string, sep: char, maxsplit: nat)
    requires sep !in s
    ensures Split(s, sep, maxsplit) == [s]
  {
    assert IndexOf(s, sep) == |s|;
  }

  /** Split cuts at the first separator: the piece before it, then the split of the rest. */
  lemma SplitAt(before: string, sep: char, after: string, maxsplit: nat)
    requires sep !in before && maxsplit > 0
    ensures Split(before + [sep] + after, sep, maxsplit) == [before] + Split(after, sep, maxsplit - 1)
  {
    var s := before + [sep] + after;
    var i := IndexOf(s, sep);
    IndexOfFirst(s, sep);
    assert s[|before|] == sep;
    assert i == |before|;
    assert s[..i] == before;
    assert s[i + 1..] == after;
  }

  /** `s.split(sep, 1)` has two pieces exactly when `s` holds `sep`: the text before and after its first occurrence. */
  lemma SplitOnce(s: string, sep: char)
    ensures |Split(s, sep, 1)| == 2 <==> sep in s
    ensures sep in s ==> Split(s, sep, 1)[0] + [sep] + Split(s, sep, 1)[1] == s
    ensures sep in s ==> sep !in Split(s, sep, 1)[0]
    ensures sep !in s ==> Split(s, sep, 1) == [s]
  {
    if sep in s {
      var before, after := FirstSep(s, sep);
      SplitAt(before, sep, after, 1);
      assert Split(after, sep, 0) == [after];
    } else {
      SplitNone(s, sep, 1);
    }
  }

  /** A file name without `/` is its own module key. */
  lemma ModuleKeyNoSlash(filename: string)
    requires '/' !in filename
    ensures ModuleKey(filename) == filename
  {
    SplitNone(filename, '/', 2);
  }

  /** A file name with exactly one `/` is its own module key. */
  lemma ModuleKeyOneSlash(dir: string, name: string)
    requires '/' !in dir && '/' !in name
    ensures ModuleKey(dir + "/" + name) == dir + "/" + name
  {
    SplitAt(dir, '/', name, 2);
    SplitNone(name, '/', 1);
    var parts := [dir, name];
    assert Split(dir + "/" + name, '/', 2) == parts;
    assert Take(parts, 2) == parts;
    assert Join('/', parts) == dir + "/" + Join('/', [name]) by {
      JoinCons('/', dir, [name]);
    }
  }

  /** Everything after the second `/` is dropped, extension included. */
  lemma ModuleKeyDropsTail(top: string, sub: string, tail: string)
    requires '/' !in top && '/' !in sub
    ensures ModuleKey(top + "/" + sub + "/" + tail) == top + "/" + sub
  {
    SplitAt(top, '/', sub + "/" + tail, 2);
    SplitAt(sub, '/', tail, 1);
    assert Split(tail, '/', 0) == [tail];
    assert top + "/" + sub + "/" + tail == top + "/" + (sub + "/" + tail);
    var parts := [top, sub, tail];
    assert Split(top + "/" + sub + "/" + tail, '/', 2) == parts;
    assert Take(parts, 2) == [top, sub];
    assert Join('/', [top, sub]) == top + "/" + Join('/', [sub]) by {
      JoinCons('/', top, [sub]);
    }
  }

  /** Slash counts of a name with two slashes and of its two-segment prefix. */
  lemma TwoSegmentPrefix(top: string, sub: string, tail: string)
    requires '/' !in top && '/' !in sub
    ensures var key, name := top + "/" + sub, top + "/" + sub + "/" + tail;
      && key <= name && |key| < |name| && name[|key|] == '/'
      && Occurs(key, '/') == 1 && Occurs(name, '/') >= 2
  {
    var key, name := top + "/" + sub, top + "/" + sub + "/" + tail;
    assert multiset(key) == multiset(top) + multiset("/") + multiset(sub);
    assert multiset(name) == multiset(key) + multiset("/") + multiset(tail);
    assert name == key + "/" + tail;
  }

  /**
   * The module key is the longest prefix of the file name holding at most one
   * `/`: the whole name when it has at most one `/`, otherwise the text before
   * its second `/`.
   */
  lemma ModuleKeyPrefix(filename: string)
    ensures ModuleKey(filename) <= filename
    ensures Occurs(ModuleKey(filename), '/') <= 1
    ensures Occurs(filename, '/') <= 1 ==> ModuleKey(filename) == filename
    ensures Occurs(filename, '/') >= 2 ==>
      && |ModuleKey(filename)| < |filename|
      && Occurs(ModuleKey(filename), '/') == 1
      && filename[|ModuleKey(filename)|] == '/'
  {
    if '/' !in filename {
      ModuleKeyNoSlash(filename);
    } else {
      var top, rest := FirstSep(filename, '/');
      if '/' !in rest {
        ModuleKeyOneSlash(top, rest);
        assert multiset(filename) == multiset(top) + multiset("/") + multiset(rest);
      } else {
        var sub, tail := FirstSep(rest, '/');
        assert filename == top + "/" + sub + "/" + tail;
        ModuleKeyDropsTail(top, sub, tail);
        TwoSegmentPrefix(top, sub, tail);
      }
    }
  }

  /** Deriving the key of a key changes nothing. */
  lemma ModuleKeyIdempotent(filename: string)
    ensures ModuleKey(ModuleKey(filename)) == ModuleKey(filename)
  {
    if '/' !in filename {
      ModuleKeyNoSlash(filename);
    } else {
      var top, rest := FirstSep(filename, '/');
      if '/' !in rest {
        ModuleKeyOneSlash(top, rest);
      } else {
        var sub, tail := FirstSep(rest, '/');
        assert filename == top + "/" + sub + "/" + tail;
        ModuleKeyDropsTail(top, sub, tail);
        ModuleKeyOneSlash(top, sub);
      }
    }
  }

  /** A file directly under the package keeps its extension in the key. */
  lemma ModuleKeyOfTopLevelFile(path: string)
    requires path == "synapse/server.py"
    ensures ModuleKey(path) == "synapse/server.py"
  {
    assert path == "synapse" + "/" + "server.py";
    ModuleKeyOneSlash("synapse", "server.py");
  }
}
