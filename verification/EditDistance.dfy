/** The command suggestion of src/main.c: a two-row Levenshtein distance and
    the closest known command. */
module EditDistance {
  import opened Common

  const MAX_LENGTH := 62
  const FAR := 64

  function Min(a: nat, b: nat): nat {
    if b < a then b else a
  }

  function Cost(x: byte, y: byte): nat {
    if x == y then 0 else 1
  }

  /** The Levenshtein distance between the first i bytes of a and the first j
      of b. */
  function Lev(a: Bytes, b: Bytes, i: nat, j: nat): nat
    requires i <= |a| && j <= |b|
    decreases i + j
  {
    if i == 0 then j
    else if j == 0 then i
    else
      Min(Min(Lev(a, b, i - 1, j) + 1, Lev(a, b, i, j - 1) + 1),
          Lev(a, b, i - 1, j - 1) + Cost(a[i - 1], b[j - 1]))
  }

  /** What cli_edit_distance reports. */
  function Distance(a: Bytes, b: Bytes): nat {
    if |a| > MAX_LENGTH || |b| > MAX_LENGTH then FAR else Lev(a, b, |a|, |b|)
  }

  // ---------------------------------------------------------------- edit scripts

  /** One step of an edit script, consuming a, b or both. */
  datatype Edit = Keep | Substitute(to: byte) | Insert(added: byte) | Remove

  /** The number of edits; keeping a byte is free. */
  function ScriptCost(script: seq<Edit>): nat {
    if script == [] then 0
    else ScriptCost(script[..|script| - 1]) + if script[|script| - 1] == Keep then 0 else 1
  }

  /** The result of running a script over a string, or None when the script
      does not consume it exactly. */
  function RunScript(a: Bytes, script: seq<Edit>): Option<Bytes>
    decreases |script|
  {
    if script == [] then if a == [] then Some([]) else None
    else
      var init, last := script[..|script| - 1], script[|script| - 1];
      match last
      case Insert(x) => Extend(RunScript(a, init), x)
      case Keep => if a == [] then None else Extend(RunScript(a[..|a| - 1], init), a[|a| - 1])
      case Substitute(x) => if a == [] then None else Extend(RunScript(a[..|a| - 1], init), x)
      case Remove => if a == [] then None else RunScript(a[..|a| - 1], init)
  }

  function Extend(r: Option<Bytes>, x: byte): Option<Bytes> {
    if r.None? then None else Some(r.value + [x])
  }

  /** No script that turns a[..i] into b[..j] is cheaper than the distance. */
  lemma {:induction false} NoCheaperScript(a: Bytes, b: Bytes, i: nat, j: nat, script: seq<Edit>)
    requires i <= |a| && j <= |b| && RunScript(a[..i], script) == Some(b[..j])
    ensures Lev(a, b, i, j) <= ScriptCost(script)
    decreases |script|
  {
    if script != [] {
      var init, last := script[..|script| - 1], script[|script| - 1];
      if last.Insert? {
        assert b[..j] == RunScript(a[..i], init).value + [last.added];
        assert RunScript(a[..i], init).value == b[..j - 1];
        NoCheaperScript(a, b, i, j - 1, init);
        LevSteps(a, b, i, j);
      } else {
        assert a[..i][..i - 1] == a[..i - 1];
        if last.Remove? {
          NoCheaperScript(a, b, i - 1, j, init);
          LevSteps(a, b, i, j);
        } else {
          assert RunScript(a[..i - 1], init).value == b[..j][..j - 1] == b[..j - 1];
          NoCheaperScript(a, b, i - 1, j - 1, init);
        }
      }
    }
  }

  /** Neighbouring distances differ by at most one step. */
  lemma {:induction false} LevSteps(a: Bytes, b: Bytes, i: nat, j: nat)
    requires i <= |a| && j <= |b|
    ensures i > 0 ==> Lev(a, b, i, j) <= Lev(a, b, i - 1, j) + 1
    ensures j > 0 ==> Lev(a, b, i, j) <= Lev(a, b, i, j - 1) + 1
  {
    if j == 0 && i > 0 {
      assert Lev(a, b, i - 1, 0) == i - 1;
    }
  }

  /** A script of exactly that cost. */
  function BestScript(a: Bytes, b: Bytes, i: nat, j: nat): seq<Edit>
    requires i <= |a| && j <= |b|
    decreases i + j
  {
    if i == 0 then if j == 0 then [] else BestScript(a, b, 0, j - 1) + [Insert(b[j - 1])]
    else if j == 0 then BestScript(a, b, i - 1, 0) + [Remove]
    else if Lev(a, b, i, j) == Lev(a, b, i - 1, j) + 1 then BestScript(a, b, i - 1, j) + [Remove]
    else if Lev(a, b, i, j) == Lev(a, b, i, j - 1) + 1 then BestScript(a, b, i, j - 1) + [Insert(b[j - 1])]
    else BestScript(a, b, i - 1, j - 1) + [if a[i - 1] == b[j - 1] then Keep else Substitute(b[j - 1])]
  }

  lemma {:induction false} BestScriptWorks(a: Bytes, b: Bytes, i: nat, j: nat)
    requires i <= |a| && j <= |b|
    ensures Works(a, b, i, j)
    decreases i + j, 1
  {
    if i == 0 {
      OnlyInserts(a, b, j);
    } else if j == 0 {
      OnlyRemoves(a, b, i);
    } else {
      BestScriptInside(a, b, i, j);
    }
  }

  lemma {:induction false} OnlyInserts(a: Bytes, b: Bytes, j: nat)
    requires j <= |b|
    ensures Works(a, b, 0, j)
  {
    if j > 0 {
      OnlyInserts(a, b, j - 1);
      PrefixGrows(b, j);
      AddInsert(a[..0], b[..j - 1], BestScript(a, b, 0, j - 1), b[j - 1]);
    }
  }

  lemma {:induction false} OnlyRemoves(a: Bytes, b: Bytes, i: nat)
    requires i <= |a|
    ensures Works(a, b, i, 0)
  {
    if i > 0 {
      OnlyRemoves(a, b, i - 1);
      PrefixGrows(a, i);
      AddRemove(a[..i - 1], b[..0], BestScript(a, b, i - 1, 0), a[i - 1]);
    }
  }

  lemma {:induction false} PrefixGrows(s: Bytes, n: nat)
    requires 0 < n <= |s|
    ensures s[..n] == s[..n - 1] + [s[n - 1]]
  {
  }

  predicate Works(a: Bytes, b: Bytes, i: nat, j: nat)
    requires i <= |a| && j <= |b|
  {
    RunScript(a[..i], BestScript(a, b, i, j)) == Some(b[..j]) && ScriptCost(BestScript(a, b, i, j)) == Lev(a, b, i, j)
  }

  lemma {:induction false} BestScriptInside(a: Bytes, b: Bytes, i: nat, j: nat)
    requires 0 < i <= |a| && 0 < j <= |b|
    ensures Works(a, b, i, j)
    decreases i + j, 0
  {
    PrefixGrows(a, i);
    PrefixGrows(b, j);
    if Lev(a, b, i, j) == Lev(a, b, i - 1, j) + 1 {
      BestScriptWorks(a, b, i - 1, j);
      AddRemove(a[..i - 1], b[..j], BestScript(a, b, i - 1, j), a[i - 1]);
    } else if Lev(a, b, i, j) == Lev(a, b, i, j - 1) + 1 {
      BestScriptWorks(a, b, i, j - 1);
      AddInsert(a[..i], b[..j - 1], BestScript(a, b, i, j - 1), b[j - 1]);
    } else {
      BestScriptWorks(a, b, i - 1, j - 1);
      AddBoth(a[..i - 1], b[..j - 1], BestScript(a, b, i - 1, j - 1), a[i - 1], b[j - 1]);
    }
  }

  lemma {:induction false} AddInsert(x: Bytes, y: Bytes, script: seq<Edit>, d: byte)
    requires RunScript(x, script) == Some(y)
    ensures RunScript(x, script + [Insert(d)]) == Some(y + [d])
    ensures ScriptCost(script + [Insert(d)]) == ScriptCost(script) + 1
  {
    assert (script + [Insert(d)])[..|script|] == script;
  }

  lemma {:induction false} AddRemove(x: Bytes, y: Bytes, script: seq<Edit>, c: byte)
    requires RunScript(x, script) == Some(y)
    ensures RunScript(x + [c], script + [Remove]) == Some(y)
    ensures ScriptCost(script + [Remove]) == ScriptCost(script) + 1
  {
    assert (script + [Remove])[..|script|] == script && (x + [c])[..|x|] == x;
  }

  lemma {:induction false} AddBoth(x: Bytes, y: Bytes, script: seq<Edit>, c: byte, d: byte)
    requires RunScript(x, script) == Some(y)
    ensures var last := if c == d then Keep else Substitute(d);
      RunScript(x + [c], script + [last]) == Some(y + [d]) &&
      ScriptCost(script + [last]) == ScriptCost(script) + Cost(c, d)
  {
    var last := if c == d then Keep else Substitute(d);
    assert (script + [last])[..|script|] == script && (x + [c])[..|x|] == x;
  }

  /** What cli_edit_distance reports is the length of the shortest edit script:
      some script from a to b costs exactly that, and none costs less. Longer
      strings are reported as far, whatever they are. */
  lemma {:induction false} DistanceIsShortestScript(a: Bytes, b: Bytes)
    ensures if |a| <= 62 && |b| <= 62 then
              (exists script :: RunScript(a, script) == Some(b) && ScriptCost(script) == Distance(a, b)) &&
              (forall script :: RunScript(a, script) == Some(b) ==> ScriptCost(script) >= Distance(a, b))
            else Distance(a, b) == 64
  {
    LevIsShortestScript(a, b);
  }

  lemma {:induction false} LevIsShortestScript(a: Bytes, b: Bytes)
    ensures exists script :: RunScript(a, script) == Some(b) && ScriptCost(script) == Lev(a, b, |a|, |b|)
    ensures forall script :: RunScript(a, script) == Some(b) ==> ScriptCost(script) >= Lev(a, b, |a|, |b|)
  {
    assert a[..|a|] == a && b[..|b|] == b;
    BestScriptWorks(a, b, |a|, |b|);
    forall script | RunScript(a, script) == Some(b)
      ensures ScriptCost(script) >= Lev(a, b, |a|, |b|)
    {
      NoCheaperScript(a, b, |a|, |b|, script);
    }
  }

  // ---------------------------------------------------------------- the loops

  /** Line i of the distance table, up to column n. */
  predicate IsLine(a: Bytes, b: Bytes, i: nat, n: nat, line: seq<nat>)
    requires i <= |a| && n <= |b| + 1 && n <= |line|
  {
    forall k: nat {:trigger line[k]} :: k < n ==> line[k] == Lev(a, b, i, k)
  }

  /** One cell, as the inner loop computes it. */
  lemma {:induction false} NextCell(a: Bytes, b: Bytes, i: nat, j: nat, above: nat, left: nat, diagonal: nat)
    requires 1 <= i <= |a| && 1 <= j <= |b|
    requires above == Lev(a, b, i - 1, j) && left == Lev(a, b, i, j - 1) && diagonal == Lev(a, b, i - 1, j - 1)
    ensures Lev(a, b, i, j) == Min(Min(above + 1, left + 1), diagonal + Cost(a[i - 1], b[j - 1]))
  {
  }

  /** The inner loop: line i from line i - 1. */
  method FillLine(a: Bytes, b: Bytes, i: nat, prev: array<nat>, curr: array<nat>)
    requires 1 <= i <= |a| && |b| < prev.Length == curr.Length && prev != curr
    requires IsLine(a, b, i - 1, |b| + 1, prev[..])
    modifies curr
    ensures IsLine(a, b, i, |b| + 1, curr[..])
  {
    curr[0] := i;
    for j := 1 to |b| + 1
      invariant IsLine(a, b, i, j, curr[..])
    {
      var cost := if a[i - 1] == b[j - 1] then 0 else 1;
      var best := prev[j] + 1;
      var ins := curr[j - 1] + 1;
      var sub := prev[j - 1] + cost;
      assert prev[..][j] == prev[j] && prev[..][j - 1] == prev[j - 1] && curr[..][j - 1] == curr[j - 1];
      NextCell(a, b, i, j, prev[j], curr[j - 1], prev[j - 1]);
      if ins < best {
        best := ins;
      }
      if sub < best {
        best := sub;
      }
      curr[j] := best;
    }
  }

  /** cli_edit_distance: two 64-entry rows, overwritten line by line. */
  method EditDistance(a: Bytes, b: Bytes) returns (distance: nat)
    ensures distance == Distance(a, b)
  {
    if |a| > MAX_LENGTH || |b| > MAX_LENGTH {
      return FAR;
    }
    var prev, curr := new nat[64](_ => 0), new nat[64](_ => 0);
    for j := 0 to |b| + 1
      invariant IsLine(a, b, 0, j, prev[..])
    {
      prev[j] := j;
    }
    for i := 1 to |a| + 1
      invariant IsLine(a, b, i - 1, |b| + 1, prev[..])
    {
      FillLine(a, b, i, prev, curr);
      ghost var line := curr[..];
      for j := 0 to |b| + 1
        invariant curr[..] == line && prev[..j] == curr[..j]
      {
        prev[j] := curr[j];
      }
      assert IsLine(a, b, i, |b| + 1, prev[..]) by {
        assert forall k: nat :: k < |b| + 1 ==> prev[..][k] == prev[..|b| + 1][k] == curr[..|b| + 1][k] == curr[..][k];
      }
    }
    assert prev[..][|b|] == prev[|b|];
    return prev[|b|];
  }

  /** cli_closest_command over a command table: the first name of minimum
      distance when that is at most two, and nothing otherwise. */
  method ClosestCommand(command: Bytes, table: seq<Bytes>) returns (best: Option<nat>)
    ensures best == None <==> |command| < 2 || forall k :: 0 <= k < |table| ==> Distance(command, table[k]) > 2
    ensures best.Some? ==>
              best.value < |table| && Distance(command, table[best.value]) <= 2 &&
              (forall k :: 0 <= k < |table| ==> Distance(command, table[best.value]) <= Distance(command, table[k])) &&
              (forall k :: 0 <= k < best.value ==> Distance(command, table[best.value]) < Distance(command, table[k]))
  {
    best := None;
    if |command| < 2 {
      return;
    }
    var bestDistance := 3;
    for i := 0 to |table|
      invariant best == None ==> bestDistance == 3
      invariant best.Some? ==> best.value < i && bestDistance == Distance(command, table[best.value]) < 3
      invariant best.Some? ==> forall k :: 0 <= k < best.value ==> bestDistance < Distance(command, table[k])
      invariant forall k :: 0 <= k < i ==> bestDistance <= Distance(command, table[k])
    {
      var d := EditDistance(command, table[i]);
      if d < bestDistance {
        bestDistance := d;
        best := Some(i);
      }
    }
  }
}
