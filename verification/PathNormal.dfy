/**
 Component normalisation (rules R10-R12 of docs/divergences.md): what the resolver's buffer
 truncation is meant to compute, and what that means in terms of the input alone.
 */
module PathNormal {
  import opened Results
  import opened PathText

  predicate IsSkipped(component: string) {
    component == "" || component == "."
  }

  predicate IsParent(component: string) {
    component == ".."
  }

  /** A component that names something. */
  predicate IsName(component: string) {
    !IsSkipped(component) && !IsParent(component)
  }

  /** Walking the components from a stack of names; None when `..` would leave the root. */
  function Normalize(parts: seq<string>, stack: seq<string>): Option<seq<string>> {
    if parts == [] then Some(stack)
    else if IsSkipped(parts[0]) then Normalize(parts[1..], stack)
    else if IsParent(parts[0]) then
      if stack == [] then None else Normalize(parts[1..], stack[..|stack| - 1])
    else Normalize(parts[1..], stack + [parts[0]])
  }

  function Weight(component: string): int {
    if IsName(component) then 1 else if IsParent(component) then -1 else 0
  }

  /** Names minus parents. */
  function Depth(parts: seq<string>): int {
    if parts == [] then 0 else Depth(parts[..|parts| - 1]) + Weight(parts[|parts| - 1])
  }

  lemma {:induction false} DepthFront(parts: seq<string>)
    requires parts != []
    ensures Depth(parts) == Weight(parts[0]) + Depth(parts[1..])
  {
    if |parts| > 1 {
      var n := |parts| - 1;
      DepthFront(parts[..n]);
      assert parts[..n][1..] == parts[1..][..n - 1];
    } else {
      assert parts[1..] == [] && parts[..0] == [];
    }
  }

  /** How far below its start the walk reaches. */
  function Pops(parts: seq<string>): nat {
    if parts == [] then 0
    else if IsSkipped(parts[0]) then Pops(parts[1..])
    else if IsParent(parts[0]) then Pops(parts[1..]) + 1
    else if Pops(parts[1..]) == 0 then 0 else Pops(parts[1..]) - 1
  }

  /** Pops is the deepest dip of Depth over all prefixes. */
  lemma {:induction false} PopsIsDeepestDip(parts: seq<string>)
    ensures forall k :: 0 <= k <= |parts| ==> Depth(parts[..k]) + Pops(parts) >= 0
    ensures exists k :: 0 <= k <= |parts| && Depth(parts[..k]) + Pops(parts) == 0
  {
    if parts == [] {
      assert Depth(parts[..0]) == 0;
    } else {
      PopsIsDeepestDip(parts[1..]);
      forall k | 0 <= k <= |parts| ensures Depth(parts[..k]) + Pops(parts) >= 0 {
        PrefixDepth(parts, k);
      }
      var k :| 0 <= k <= |parts[1..]| && Depth(parts[1..][..k]) + Pops(parts[1..]) == 0;
      PrefixDepth(parts, k + 1);
      PrefixDepth(parts, 0);
      assert Depth(parts[..k + 1]) + Pops(parts) == 0 || Depth(parts[..0]) + Pops(parts) == 0;
    }
  }

  lemma PrefixDepth(parts: seq<string>, k: nat)
    requires k <= |parts| && parts != []
    ensures k == 0 ==> Depth(parts[..k]) == 0
    ensures k > 0 ==> Depth(parts[..k]) == Weight(parts[0]) + Depth(parts[1..][..k - 1])
  {
    if k > 0 {
      DepthFront(parts[..k]);
      assert parts[..k][1..] == parts[1..][..k - 1];
    }
  }

  /** The names no later `..` takes away, in order. */
  function Survivors(parts: seq<string>): seq<string> {
    if parts == [] then []
    else (if IsName(parts[0]) && Pops(parts[1..]) == 0 then [parts[0]] else []) + Survivors(parts[1..])
  }

  /** A stack after `pops` names were taken off it and `survivors` put on. */
  function Walked(stack: seq<string>, pops: nat, survivors: seq<string>): Option<seq<string>> {
    if pops > |stack| then None else Some(stack[..|stack| - pops] + survivors)
  }

  lemma WalkedPush(stack: seq<string>, name: string, pops: nat, survivors: seq<string>)
    ensures Walked(stack + [name], pops, survivors)
         == if pops == 0 then Walked(stack, 0, [name] + survivors) else Walked(stack, pops - 1, survivors)
  {
    if pops == 0 {
      assert (stack + [name])[..|stack| + 1] == stack + [name];
      assert stack[..|stack|] == stack;
      assert stack + [name] + survivors == stack + ([name] + survivors);
    } else if pops <= |stack| + 1 {
      assert (stack + [name])[..|stack| + 1 - pops] == stack[..|stack| - (pops - 1)];
    }
  }

  lemma WalkedPop(stack: seq<string>, pops: nat, survivors: seq<string>)
    requires stack != []
    ensures Walked(stack[..|stack| - 1], pops, survivors) == Walked(stack, pops + 1, survivors)
  {
    if pops + 1 <= |stack| {
      assert stack[..|stack| - 1][..|stack| - 1 - pops] == stack[..|stack| - (pops + 1)];
    }
  }

  lemma {:induction false} WalkMeaning(parts: seq<string>, stack: seq<string>)
    ensures Normalize(parts, stack) == Walked(stack, Pops(parts), Survivors(parts))
  {
    if parts == [] {
      assert stack[..|stack|] + [] == stack;
    } else {
      var rest := parts[1..];
      assert [] + Survivors(rest) == Survivors(rest);
      if IsName(parts[0]) {
        WalkMeaning(rest, stack + [parts[0]]);
        WalkedPush(stack, parts[0], Pops(rest), Survivors(rest));
      } else if IsSkipped(parts[0]) {
        WalkMeaning(rest, stack);
      } else if stack != [] {
        WalkMeaning(rest, stack[..|stack| - 1]);
        WalkedPop(stack, Pops(rest), Survivors(rest));
      }
    }
  }

  /**
   Normalising from the root fails exactly when some prefix holds more `..` than names, and otherwise
   leaves exactly the names that no later `..` takes away, as many as the whole depth.
   */
  lemma NormalizeMeaning(parts: seq<string>)
    ensures Normalize(parts, []).None? <==> exists k :: 0 <= k <= |parts| && Depth(parts[..k]) < 0
    ensures Normalize(parts, []).Some? ==> Normalize(parts, []).value == Survivors(parts)
    ensures Normalize(parts, []).Some? ==> |Survivors(parts)| == Depth(parts)
  {
    WalkMeaning(parts, []);
    PopsIsDeepestDip(parts);
    if Pops(parts) == 0 {
      assert [][..0] + Survivors(parts) == Survivors(parts);
    }
    SurvivorCount(parts);
  }

  lemma {:induction false} SurvivorCount(parts: seq<string>)
    ensures |Survivors(parts)| == Depth(parts) + Pops(parts)
  {
    if parts != [] {
      SurvivorCount(parts[1..]);
      DepthFront(parts);
    }
  }

  predicate AllNames(parts: seq<string>) {
    forall i :: 0 <= i < |parts| ==> IsName(parts[i])
  }

  /** A walk keeps a stack of names a stack of names from the stack or the parts. */
  lemma {:induction false} WalkKeepsNames(parts: seq<string>, stack: seq<string>)
    requires AllNames(stack)
    ensures Normalize(parts, stack).Some? ==> AllNames(Normalize(parts, stack).value)
    ensures Normalize(parts, stack).Some? ==> forall n :: n in Normalize(parts, stack).value ==> n in stack || n in parts
  {
    if parts != [] {
      if IsSkipped(parts[0]) {
        WalkKeepsNames(parts[1..], stack);
      } else if !IsParent(parts[0]) {
        WalkKeepsNames(parts[1..], stack + [parts[0]]);
      } else if stack != [] {
        WalkKeepsNames(parts[1..], stack[..|stack| - 1]);
      }
    }
  }

  /** No part holds the character. */
  predicate Free(parts: seq<string>, c: char) {
    forall i :: 0 <= i < |parts| ==> c !in parts[i]
  }

  lemma WalkKeepsFree(parts: seq<string>, c: char)
    requires Free(parts, c)
    ensures Normalize(parts, []).Some? ==> Free(Normalize(parts, []).value, c)
  {
    WalkKeepsNames(parts, []);
    if Normalize(parts, []).Some? {
      var stack := Normalize(parts, []).value;
      forall i | 0 <= i < |stack| ensures c !in stack[i] {
        assert stack[i] in stack;
        var j :| 0 <= j < |parts| && parts[j] == stack[i];
      }
    }
  }

  /** Names alone are left as they are. */
  lemma {:induction false} NamesAreNormal(parts: seq<string>, stack: seq<string>)
    requires AllNames(parts)
    ensures Normalize(parts, stack) == Some(stack + parts)
  {
    if parts == [] {
      assert stack + parts == stack;
    } else {
      NamesAreNormal(parts[1..], stack + [parts[0]]);
      assert stack + [parts[0]] + parts[1..] == stack + parts;
    }
  }

  /** Walking two lists one after the other. */
  lemma {:induction false} NormalizeAppend(first: seq<string>, second: seq<string>, stack: seq<string>)
    ensures Normalize(first + second, stack)
         == match Normalize(first, stack) { case None => None case Some(middle) => Normalize(second, middle) }
  {
    if first == [] {
      assert first + second == second;
    } else {
      assert (first + second)[1..] == first[1..] + second;
      if IsSkipped(first[0]) {
        NormalizeAppend(first[1..], second, stack);
      } else if !IsParent(first[0]) {
        NormalizeAppend(first[1..], second, stack + [first[0]]);
      } else if stack != [] {
        NormalizeAppend(first[1..], second, stack[..|stack| - 1]);
      }
    }
  }

  /** The names, each behind a separator. */
  function Tail(stack: seq<string>, separator: char): string {
    if stack == [] then ""
    else Tail(stack[..|stack| - 1], separator) + [separator] + stack[|stack| - 1]
  }

  lemma {:induction false} TailFront(stack: seq<string>, separator: char)
    requires stack != []
    ensures Tail(stack, separator) == [separator] + stack[0] + Tail(stack[1..], separator)
  {
    var n := |stack| - 1;
    if n > 0 {
      TailFront(stack[..n], separator);
      assert stack[..n][1..] == stack[1..][..n - 1];
      assert stack[1..][n - 1] == stack[n];
    } else {
      assert Tail(stack[..0], separator) == "";
      assert stack[1..] == [];
    }
  }

  /** Splitting a rendered tail gives the names back, behind what preceded it. */
  lemma {:induction false} SplitTail(front: string, stack: seq<string>, separator: char)
    requires separator !in front && Free(stack, separator)
    ensures Split(front + Tail(stack, separator), separator) == [front] + stack
    decreases |stack|
  {
    if stack == [] {
      assert front + Tail(stack, separator) == front;
      assert Find(front, separator) == |front|;
    } else {
      var rest := stack[0] + Tail(stack[1..], separator);
      assert front + Tail(stack, separator) == front + [separator] + rest by {
        TailFront(stack, separator);
      }
      SplitTail(stack[0], stack[1..], separator);
      SplitFront(front, separator, rest);
      assert [stack[0]] + stack[1..] == stack;
    }
  }

  /** Swapping the separators of a rendered tail renders it with the other separator. */
  lemma {:induction false} SwapTail(stack: seq<string>, from: char, to: char)
    requires Free(stack, from)
    ensures Swap(Tail(stack, from), from, to) == Tail(stack, to)
  {
    if stack != [] {
      var n := |stack| - 1;
      SwapTail(stack[..n], from, to);
      var front := Tail(stack[..n], from);
      assert from !in stack[n];
      assert Swap(front + [from] + stack[n], from, to) == Swap(front, from, to) + [to] + stack[n];
    }
  }
}
