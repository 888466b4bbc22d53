/**
 * The post-processing half of `search`: each line `grep -r` prints is
 * `path:text`; the line counts once towards the total and once towards the
 * module key of its path. A line without `:` makes the unpacking
 * `filename, match = line.split(":", 1)` raise, which aborts the run.
 */
module Search {
  import opened Strings

  datatype Option<T> = None | Some(value: T)

  /** The failure `search` can raise: the grep line at `index` holds no `:`. */
  datatype SearchError = MissingColon(index: nat)

  datatype Result<T> = Ok(value: T) | Err(error: SearchError)

  /** The pair `(total, by_module)` that `search` returns. */
  datatype SearchResult = SearchResult(total: nat, byModule: map<string, nat>)

  /** The module a grep line is counted under, or None when the line cannot be unpacked. */
  function LineModule(line: string): Option<string>
  {
    var parts := Split(line, ':', 1);
    if |parts| != 2 then None else Some(ModuleKey(parts[0]))
  }

  /** The line holds a `:`, so `line.split(":", 1)` unpacks into two names. */
  predicate HasColon(line: string)
  {
    ':' in line
  }

  /** Index of the first line without `:`, or `|lines|` when every line has one. */
  function FirstMissingColon(lines: seq<string>): (i: nat)
    ensures i <= |lines|
    ensures i < |lines| ==> !HasColon(lines[i])
    ensures forall j :: 0 <= j < i ==> HasColon(lines[j])
  {
    if lines == [] then 0
    else if !HasColon(lines[0]) then 0
    else 1 + FirstMissingColon(lines[1..])
  }

  /** Number of lines counted under module `key`. */
  function Occurrences(lines: seq<string>, key: string): nat
  {
    if lines == [] then 0
    else
      Occurrences(lines[..|lines| - 1], key)
      + (if LineModule(lines[|lines| - 1]) == Some(key) then 1 else 0)
  }

  /** The `by_module` map after counting `lines` in order. */
  function Tally(lines: seq<string>): map<string, nat>
  {
    if lines == [] then map[]
    else
      var counted := Tally(lines[..|lines| - 1]);
      match LineModule(lines[|lines| - 1])
      case Some(key) => Bump(counted, key)
      case None => counted
  }

  /** What `search` computes from grep's output lines: the first line without `:` fails it. */
  function SearchSpec(lines: seq<string>): (r: Result<SearchResult>)
    ensures r.Err? <==> exists i :: 0 <= i < |lines| && !HasColon(lines[i])
    ensures r.Err? ==> r.error.index < |lines| && !HasColon(lines[r.error.index])
                       && forall j :: 0 <= j < r.error.index ==> HasColon(lines[j])
    ensures r.Ok? ==> r.value.total == |lines|
  {
    var bad := FirstMissingColon(lines);
    if bad < |lines| then Err(MissingColon(bad))
    else Ok(SearchResult(|lines|, Tally(lines)))
  }

  /** `d[key] += 1` on a `defaultdict(int)`: a missing key counts as 0. */
  function Bump(m: map<string, nat>, key: string): map<string, nat>
  {
    m[key := (if key in m then m[key] else 0) + 1]
  }

  /** The sum of the counts held in a map. */
  ghost function Sum(m: map<string, nat>): nat
    decreases |m|
  {
    if m == map[] then 0
    else
      var key :| key in m;
      assert |m - {key}| < |m| by {
        assert m.Keys == (m - {key}).Keys + {key};
      }
      m[key] + Sum(m - {key})
  }

  /** A line with `:` falls under the module key of the text before its first `:`. */
  lemma LineModuleOfMatch(filename: string, text: string)
    requires ':' !in filename
    ensures LineModule(filename + ":" + text) == Some(ModuleKey(filename))
  {
    SplitAt(filename, ':', text, 1);
    assert Split(text, ':', 0) == [text];
  }

  /** A line without `:` falls under no module. */
  lemma LineModuleOfUnsplittable(line: string)
    ensures LineModule(line).None? <==> !HasColon(line)
  {
    SplitOnce(line, ':');
  }

  /** Any key of a map can be taken out of its sum first. */
  lemma {:induction false} SumRemove(m: map<string, nat>, key: string)
    requires key in m
    ensures Sum(m) == m[key] + Sum(m - {key})
    decreases |m|
  {
    var j :| j in m && Sum(m) == m[j] + Sum(m - {j});
    if j != key {
      assert m.Keys == (m - {j}).Keys + {j};
      assert m.Keys == (m - {key}).Keys + {key};
      SumRemove(m - {j}, key);
      SumRemove(m - {key}, j);
      assert m - {j} - {key} == m - {key} - {j};
    }
  }

  /** Counting one more line adds one to the sum. */
  lemma SumBump(m: map<string, nat>, key: string)
    ensures Sum(Bump(m, key)) == Sum(m) + 1
  {
    var b := Bump(m, key);
    SumRemove(b, key);
    assert b - {key} == m - {key};
    if key in m {
      SumRemove(m, key);
    } else {
      assert m - {key} == m;
    }
  }

  /** Some line falls under `key` exactly when the count of `key` is positive. */
  lemma {:induction false} OccurrencesPositive(lines: seq<string>, key: string)
    ensures Occurrences(lines, key) > 0 <==> exists i :: 0 <= i < |lines| && LineModule(lines[i]) == Some(key)
  {
    if lines != [] {
      OccurrencesPositive(lines[..|lines| - 1], key);
      OccurrencesSnoc(lines, key);
    }
  }

  /** A key occurs in `lines` exactly when it occurs in all but the last line, or in the last. */
  lemma OccurrencesSnoc(lines: seq<string>, key: string)
    requires lines != []
    ensures var init := lines[..|lines| - 1];
      (exists i :: 0 <= i < |lines| && LineModule(lines[i]) == Some(key))
      <==> (exists i :: 0 <= i < |init| && LineModule(init[i]) == Some(key))
           || LineModule(lines[|lines| - 1]) == Some(key)
  {
    var init := lines[..|lines| - 1];
    assert forall i :: 0 <= i < |init| ==> init[i] == lines[i];
  }

  /**
   * The tally holds exactly the modules some line falls under, each mapped to
   * the number of lines that fall under it: lines with the same key add to the
   * same entry, and no other entry exists.
   */
  lemma {:induction false} TallyCounts(lines: seq<string>, key: string)
    ensures key in Tally(lines) <==> Occurrences(lines, key) > 0
    ensures key in Tally(lines) ==> Tally(lines)[key] == Occurrences(lines, key)
  {
    if lines != [] {
      TallyCounts(lines[..|lines| - 1], key);
    }
  }

  /** When every line can be unpacked, the per-module counts add up to the number of lines. */
  lemma {:induction false} TallySum(lines: seq<string>)
    requires forall i :: 0 <= i < |lines| ==> HasColon(lines[i])
    ensures Sum(Tally(lines)) == |lines|
  {
    if lines != [] {
      var init, last := lines[..|lines| - 1], lines[|lines| - 1];
      assert forall i :: 0 <= i < |init| ==> init[i] == lines[i];
      TallySum(init);
      LineModuleOfUnsplittable(last);
      SumBump(Tally(init), LineModule(last).value);
    }
  }

  /** The total `search` returns is the sum of the entries of its `by_module` map. */
  lemma SearchTotalIsSum(lines: seq<string>)
    ensures SearchSpec(lines).Ok? ==> Sum(SearchSpec(lines).value.byModule) == SearchSpec(lines).value.total
  {
    if SearchSpec(lines).Ok? {
      TallySum(lines);
    }
  }

  /** Every key of `by_module` counts at least one line, and is the module key of such a line. */
  lemma SearchKeysFromLines(lines: seq<string>, key: string)
    requires SearchSpec(lines).Ok? && key in SearchSpec(lines).value.byModule
    ensures SearchSpec(lines).value.byModule[key] >= 1
    ensures exists i :: 0 <= i < |lines| && LineModule(lines[i]) == Some(key)
  {
    TallyCounts(lines, key);
    OccurrencesPositive(lines, key);
  }

  /** The count of each key in `by_module` is the number of lines that fall under it, and absent keys fall under no line. */
  lemma SearchCountsLines(lines: seq<string>, key: string)
    requires SearchSpec(lines).Ok?
    ensures key in SearchSpec(lines).value.byModule ==> SearchSpec(lines).value.byModule[key] == Occurrences(lines, key)
    ensures key !in SearchSpec(lines).value.byModule ==> forall i :: 0 <= i < |lines| ==> LineModule(lines[i]) != Some(key)
  {
    TallyCounts(lines, key);
    OccurrencesPositive(lines, key);
  }

  /** `search` fails on the first line without `:`. */
  lemma SearchFailsAt(lines: seq<string>, i: nat)
    requires i < |lines| && !HasColon(lines[i])
    requires forall j :: 0 <= j < i ==> HasColon(lines[j])
    ensures SearchSpec(lines) == Err(MissingColon(i))
  {
    var bad := FirstMissingColon(lines);
    assert bad <= i;
    assert bad >= i;
  }

  /** Counting line `i` of `lines` after the lines before it. */
  lemma TallyStep(lines: seq<string>, i: nat)
    requires i < |lines|
    ensures |Split(lines[i], ':', 1)| == 2 <==> HasColon(lines[i])
    ensures HasColon(lines[i]) ==>
      Tally(lines[..i + 1]) == Bump(Tally(lines[..i]), ModuleKey(Split(lines[i], ':', 1)[0]))
  {
    SplitOnce(lines[i], ':');
    assert lines[..i + 1][..i] == lines[..i];
  }

  /**
   * The aggregation loop of `search`: unpack each line into file name and
   * match, count it in the total and under the module key of the file name.
   */
  method Aggregate(lines: seq<string>) returns (r: Result<SearchResult>)
    ensures r == SearchSpec(lines)
  {
    var total: nat := 0;
    var byModule: map<string, nat> := map[];
    var i := 0;
    while i < |lines|
      invariant 0 <= i <= |lines|
      invariant i <= FirstMissingColon(lines)
      invariant total == i
      invariant byModule == Tally(lines[..i])
    {
      var parts := Split(lines[i], ':', 1);
      TallyStep(lines, i);
      if |parts| != 2 {
        return Err(MissingColon(i));
      }
      var filename := parts[0];
      var key := ModuleKey(filename);
      total := total + 1;
      byModule := Bump(byModule, key);
      i := i + 1;
    }
    assert lines[..i] == lines;
    return Ok(SearchResult(total, byModule));
  }
}
