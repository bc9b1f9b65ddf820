/**
 The resolver's rendering buffer (crates/fsw-path/src/lib.rs): both renderers push components and
 truncate on `..`, and derive the `/`-separated form from the rendered tail. Each is proved equal to
 the component-stack form, whatever the buffer held before.
 */
module PathRender {
  import opened Results
  import opened PathText
  import opened PathNormal

  const WSL_ROOT_UNC: string := "\\\\wsl.localhost"

  datatype ResolveError =
    | NotASlashPath
    | DoubleLeadingSlash
    | MissingDistribution
    | UnregisteredDistribution
    | BackslashNotAllowed
    | EmbeddedNul
    | TraversalAboveRoot
    | NoDefaultDistribution

  datatype DistributionPath = DistributionPath(
    distribution: string, uncDisplay: string, linuxPath: string, hadTrailingSeparator: bool)

  datatype FolderPath = FolderPath(display: string, underRoot: string, hadTrailingSeparator: bool)

  /** The names of a tail, or None when it leaves the root. */
  function Names(tail: string): Option<seq<string>> {
    Normalize(Split(tail, '/'), [])
  }

  /** The names behind separators, and the trailing separator if one was typed and a name is left. */
  function Shown(stack: seq<string>, had: bool, separator: char): string {
    Tail(stack, separator) + if had && stack != [] then [separator] else ""
  }

  function SlashForm(stack: seq<string>, had: bool): string {
    if stack == [] then "/" else Shown(stack, had, '/')
  }

  function DistributionBase(distribution: string): string {
    WSL_ROOT_UNC + "\\" + distribution
  }

  /** render. */
  function Rendered(tail: string, distribution: string, had: bool): Result<DistributionPath, ResolveError> {
    match Names(tail)
    case None => Err(TraversalAboveRoot)
    case Some(stack) =>
      Ok(DistributionPath(
        distribution, DistributionBase(distribution) + Shown(stack, had, '\\'), SlashForm(stack, had), had))
  }

  /** Rules R1-R4. */
  function ShapeError(input: string): Option<ResolveError> {
    if input == "" || input[0] != '/' then Some(NotASlashPath)
    else if |input| > 1 && input[1] == '/' then Some(DoubleLeadingSlash)
    else if '\0' in input then Some(EmbeddedNul)
    else if '\\' in input then Some(BackslashNotAllowed)
    else None
  }

  /** The root without trailing separators, except the one a bare drive keeps. */
  function FolderBase(root: string): string {
    var trimmed := TrimEnd(root, '\\');
    if '\\' in trimmed then trimmed else trimmed + "\\"
  }

  /** A rendered tail below a base: a base that ends in a separator supplies the first one itself. */
  function Below(base: string, shown: string): string {
    if EndsWithChar(base, '\\') && shown != "" then base + shown[1..] else base + shown
  }

  /** resolve_under_root. */
  function UnderRoot(input: string, root: string): Result<FolderPath, ResolveError> {
    match ShapeError(input)
    case Some(error) => Err(error)
    case None =>
      var had := EndsWithChar(input, '/');
      match Names(input[1..])
      case None => Err(TraversalAboveRoot)
      case Some(stack) =>
        Ok(FolderPath(Below(FolderBase(root), Shown(stack, had, '\\')), SlashForm(stack, had), had))
  }

  /** Proper names that a component of a checked input can be. */
  predicate CleanStack(stack: seq<string>) {
    AllNames(stack) && Free(stack, '\\')
  }

  lemma {:induction false} TailEmpty(stack: seq<string>, separator: char)
    ensures Tail(stack, separator) == "" <==> stack == []
    ensures stack != [] ==> Tail(stack, separator)[0] == separator
  {
    if stack != [] {
      TailFront(stack, separator);
    }
  }

  lemma {:induction false} JoinSnoc(parts: seq<string>, part: string, separator: char)
    requires parts != []
    ensures Join(parts + [part], separator) == Join(parts, separator) + [separator] + part
  {
    if |parts| > 1 {
      JoinSnoc(parts[1..], part, separator);
      assert (parts + [part])[1..] == parts[1..] + [part];
    } else {
      assert (parts + [part])[1..] == [part];
    }
  }

  /** Cutting at the last separator takes the last name off. */
  lemma CutLast(stack: seq<string>)
    requires stack != [] && Free(stack, '\\')
    ensures RFind(Tail(stack, '\\'), '\\') == Some(|Tail(stack[..|stack| - 1], '\\')|)
    ensures Tail(stack, '\\')[..|Tail(stack[..|stack| - 1], '\\')|] == Tail(stack[..|stack| - 1], '\\')
  {
    RFindLast(Tail(stack[..|stack| - 1], '\\'), '\\', stack[|stack| - 1]);
  }

  /** The same cut below a base that supplies the first separator itself. */
  lemma CutLastBelow(stack: seq<string>)
    requires stack != [] && Free(stack, '\\')
    ensures var rest := Tail(stack, '\\')[1..];
            var shorter := Tail(stack[..|stack| - 1], '\\');
            && (|stack| == 1 ==> RFind(rest, '\\') == None)
            && (|stack| > 1 ==> RFind(rest, '\\') == Some(|shorter| - 1) && rest[..|shorter| - 1] == shorter[1..])
  {
    var shorter := Tail(stack[..|stack| - 1], '\\');
    TailEmpty(stack[..|stack| - 1], '\\');
    var last := stack[|stack| - 1];
    if |stack| == 1 {
      assert Tail(stack, '\\')[1..] == last;
    } else {
      assert Tail(stack, '\\')[1..] == shorter[1..] + ['\\'] + last;
      RFindLast(shorter[1..], '\\', last);
    }
  }

  /** The derived slash form is the same names behind slashes. */
  lemma MirroredForm(stack: seq<string>, had: bool)
    requires stack != [] && Free(stack, '\\')
    ensures Swap(Shown(stack, had, '\\'), '\\', '/') == SlashForm(stack, had)
    ensures "/" + Swap(Shown(stack, had, '\\')[1..], '\\', '/') == SlashForm(stack, had)
  {
    SwapTail(stack, '\\', '/');
    TailEmpty(stack, '\\');
    var shown := Shown(stack, had, '\\');
    assert Swap(shown, '\\', '/') == SlashForm(stack, had);
    assert Swap(shown, '\\', '/') == "/" + Swap(shown[1..], '\\', '/');
  }

  /** One step of the walk, seen from the remaining components. */
  lemma WalkStep(parts: seq<string>, i: nat, stack: seq<string>)
    requires i < |parts|
    ensures Normalize(parts[i..], stack)
         == match Normalize([parts[i]], stack) { case None => None case Some(next) => Normalize(parts[i + 1..], next) }
  {
  }

  lemma NormalizeOne(component: string, stack: seq<string>)
    ensures Normalize([component], stack)
         == if IsSkipped(component) then Some(stack)
            else if IsParent(component) then (if stack == [] then None else Some(stack[..|stack| - 1]))
            else Some(stack + [component])
  {
  }

  /** The components of an input without backslashes have none. */
  lemma PartsAreFree(text: string, separator: char, c: char)
    requires c !in text
    ensures Free(Split(text, separator), c) && Free(Split(text, separator), separator)
  {
    SplitParts(text, separator);
  }

  class RenderBuf {
    var unc: string
    var linux: string

    constructor ()
      ensures unc == "" && linux == ""
    {
      unc, linux := "", "";
    }

    /** The loop that copies the rendered tail to the other buffer with `/` separators. */
    method MirrorTail(tail: string)
      modifies this`linux
      ensures linux == old(linux) + Swap(tail, '\\', '/')
    {
      var parts := Split(tail, '\\');
      var index := 0;
      while index < |parts|
        invariant index <= |parts|
        invariant index == 0 ==> linux == old(linux)
        invariant index > 0 ==> linux == old(linux) + Join(parts[..index], '/')
      {
        if index > 0 {
          linux := linux + "/";
          JoinSnoc(parts[..index], parts[index], '/');
        }
        linux := linux + parts[index];
        assert parts[..index + 1] == parts[..index] + [parts[index]];
        index := index + 1;
      }
      assert parts[..index] == parts;
      JoinSplit(tail, '\\', '/');
    }

    /** The loop body of render. */
    method RenderComponent(component: string, distroEnd: nat, ghost base: string, ghost stack: seq<string>)
        returns (inside: bool, ghost next: seq<string>)
      requires CleanStack(stack) && '\\' !in component
      requires distroEnd == |base| && unc == base + Tail(stack, '\\')
      modifies this`unc
      ensures Normalize([component], stack) == if inside then Some(next) else None
      ensures inside ==> CleanStack(next) && unc == base + Tail(next, '\\')
    {
      NormalizeOne(component, stack);
      inside, next := true, stack;
      if component == "" || component == "." {
        return;
      }
      if component == ".." {
        TailEmpty(stack, '\\');
        if |unc| == distroEnd {
          inside := false;
          return;
        }
        CutPlain(base, stack);
        var found := RFind(unc[distroEnd..], '\\');
        var cut := if found.Some? then found.value else 0;
        unc := unc[..distroEnd + cut];
        next := stack[..|stack| - 1];
        return;
      }
      PushPlain(base, stack, component);
      unc := unc + "\\" + component;
      next := stack + [component];
    }

    /** render. */
    method Render(input: string, distribution: string, componentStart: nat, had: bool)
        returns (result: Result<DistributionPath, ResolveError>)
      requires '\\' !in input
      modifies this
      ensures var tail := if componentStart <= |input| then input[componentStart..] else "";
              result == Rendered(tail, distribution, had)
      ensures result.Ok? ==> unc == result.value.uncDisplay && linux == result.value.linuxPath
    {
      var tail := if componentStart <= |input| then input[componentStart..] else "";
      result := RenderTail(tail, distribution, had);
    }

    /** The loop of render over the components of the tail. */
    method RenderTail(tail: string, distribution: string, had: bool) returns (result: Result<DistributionPath, ResolveError>)
      requires '\\' !in tail
      modifies this
      ensures result == Rendered(tail, distribution, had)
      ensures result.Ok? ==> unc == result.value.uncDisplay && linux == result.value.linuxPath
    {
      linux := "";
      unc := WSL_ROOT_UNC + "\\" + distribution;
      ghost var base := DistributionBase(distribution);
      var distroEnd := |unc|;
      var parts := Split(tail, '/');
      PartsAreFree(tail, '/', '\\');
      ghost var stack: seq<string> := [];
      var i := 0;
      while i < |parts|
        modifies this`unc
        invariant i <= |parts|
        invariant CleanStack(stack) && unc == base + Tail(stack, '\\')
        invariant Normalize(parts[i..], stack) == Names(tail)
      {
        WalkStep(parts, i, stack);
        var inside;
        ghost var next;
        inside, next := RenderComponent(parts[i], distroEnd, base, stack);
        if !inside {
          return Err(TraversalAboveRoot);
        }
        stack := next;
        i := i + 1;
      }
      assert parts[i..] == [];
      FinishRender(distroEnd, had, base, stack);
      return Ok(DistributionPath(distribution, unc, linux, had));
    }

    /** The tail of render: the trailing separator and the Linux path. */
    method FinishRender(distroEnd: nat, had: bool, ghost base: string, ghost stack: seq<string>)
      requires CleanStack(stack) && distroEnd == |base|
      requires unc == base + Tail(stack, '\\') && linux == ""
      modifies this
      ensures unc == base + Shown(stack, had, '\\')
      ensures linux == SlashForm(stack, had)
    {
      TailEmpty(stack, '\\');
      var hasComponents := |unc| > distroEnd;
      if had && hasComponents {
        unc := unc + "\\";
      }
      assert unc == base + Shown(stack, had, '\\');
      if hasComponents {
        assert unc[distroEnd..] == Shown(stack, had, '\\');
        MirrorTail(unc[distroEnd..]);
        MirroredForm(stack, had);
      } else {
        linux := linux + "/";
      }
    }

    /** The loop body of resolve_under_root. */
    method UnderComponent(component: string, baseEnd: nat, ghost base: string, ghost stack: seq<string>)
        returns (inside: bool, ghost next: seq<string>)
      requires CleanStack(stack) && '\\' !in component
      requires base != "" && baseEnd == |base| && unc == Below(base, Tail(stack, '\\'))
      modifies this`unc
      ensures Normalize([component], stack) == if inside then Some(next) else None
      ensures inside ==> CleanStack(next) && unc == Below(base, Tail(next, '\\'))
    {
      NormalizeOne(component, stack);
      inside, next := true, stack;
      if component == "" || component == "." {
        return;
      }
      if component == ".." {
        BelowShape(base, stack);
        if |unc| == baseEnd {
          inside := false;
          return;
        }
        CutBelow(base, stack);
        var found := RFind(unc[baseEnd..], '\\');
        var cut := if found.Some? then found.value else 0;
        unc := unc[..baseEnd + cut];
        next := stack[..|stack| - 1];
        return;
      }
      PushBelow(base, stack, component);
      if !EndsWithChar(unc, '\\') {
        unc := unc + "\\";
      }
      unc := unc + component;
      next := stack + [component];
    }

    /** resolve_under_root. */
    method ResolveUnderRoot(input: string, root: string) returns (result: Result<FolderPath, ResolveError>)
      modifies this
      ensures result == UnderRoot(input, root)
      ensures result.Ok? ==> unc == result.value.display && linux == result.value.underRoot
    {
      var shape := ShapeError(input);
      if shape.Some? {
        return Err(shape.value);
      }
      linux := "";
      TrimToBase(root);
      ghost var base := unc;
      var baseEnd := |unc|;
      var had := EndsWithChar(input, '/');
      var tail := input[1..];
      var parts := Split(tail, '/');
      PartsAreFree(tail, '/', '\\');
      ghost var stack: seq<string> := [];
      var i := 0;
      while i < |parts|
        modifies this`unc
        invariant i <= |parts|
        invariant CleanStack(stack) && unc == Below(base, Tail(stack, '\\'))
        invariant Normalize(parts[i..], stack) == Names(tail)
      {
        WalkStep(parts, i, stack);
        var inside;
        ghost var next;
        inside, next := UnderComponent(parts[i], baseEnd, base, stack);
        if !inside {
          return Err(TraversalAboveRoot);
        }
        stack := next;
        i := i + 1;
      }
      assert parts[i..] == [];
      FolderForms(base, stack, had);
      FinishUnder(baseEnd, had, Below(base, Shown(stack, had, '\\')), SlashForm(stack, had));
      return Ok(FolderPath(unc, linux, had));
    }

    /** The tail of resolve_under_root: the trailing separator and the mirrored form. */
    method FinishUnder(baseEnd: nat, had: bool, ghost shown: string, ghost form: string)
      requires baseEnd <= |unc| && linux == ""
      requires shown == if had && |unc| > baseEnd then unc + "\\" else unc
      requires form == if |unc| > baseEnd then "/" + Swap(WithoutSeparator(shown[baseEnd..]), '\\', '/') else "/"
      modifies this
      ensures unc == shown && linux == form
    {
      var hasComponents := |unc| > baseEnd;
      if had && hasComponents {
        unc := unc + "\\";
      }
      linux := "/";
      if hasComponents {
        MirrorTail(WithoutSeparator(unc[baseEnd..]));
      }
    }

    /** The base of resolve_under_root, built in the buffer. */
    method TrimToBase(root: string)
      modifies this`unc
      ensures unc == FolderBase(root)
    {
      unc := root;
      while EndsWithChar(unc, '\\')
        invariant TrimEnd(unc, '\\') == TrimEnd(root, '\\')
        decreases |unc|
      {
        unc := unc[..|unc| - 1];
      }
      if '\\' !in unc {
        unc := unc + "\\";
      }
    }
  }

  /** strip_prefix of one separator, if there is one. */
  function WithoutSeparator(text: string): string {
    if text != "" && text[0] == '\\' then text[1..] else text
  }

  /** The finished forms, from the walk's stack. */
  lemma FolderForms(base: string, stack: seq<string>, had: bool)
    requires base != "" && CleanStack(stack)
    ensures var walked := Below(base, Tail(stack, '\\'));
            var shown := Below(base, Shown(stack, had, '\\'));
            && (|walked| > |base| <==> stack != [])
            && shown == (if had && stack != [] then walked + "\\" else walked)
            && base <= shown
            && (stack == [] ==> SlashForm(stack, had) == "/")
            && (stack != [] ==> "/" + Swap(WithoutSeparator(shown[|base|..]), '\\', '/') == SlashForm(stack, had))
  {
    BelowShape(base, stack);
    BelowShown(base, stack, had);
    if stack != [] {
      BelowTail(base, stack, had);
      MirroredForm(stack, had);
    }
  }

  /** Where the rendered text ends, below either kind of base. */
  lemma BelowShape(base: string, stack: seq<string>)
    requires base != "" && CleanStack(stack)
    ensures var text := Below(base, Tail(stack, '\\'));
            && base <= text
            && (|text| == |base| <==> stack == [])
            && (EndsWithChar(text, '\\') <==> stack == [] && EndsWithChar(base, '\\'))
  {
  }

  lemma CutPlain(base: string, stack: seq<string>)
    requires CleanStack(stack) && stack != []
    ensures var text := base + Tail(stack, '\\');
            var found := RFind(text[|base|..], '\\');
            var cut := if found.Some? then found.value else 0;
            |base| + cut <= |text| && text[..|base| + cut] == base + Tail(stack[..|stack| - 1], '\\')
  {
    var tail := Tail(stack, '\\');
    CutLast(stack);
    assert (base + tail)[|base|..] == tail;
    PrefixOfSum(base, tail, |Tail(stack[..|stack| - 1], '\\')|);
  }

  lemma PushPlain(base: string, stack: seq<string>, name: string)
    ensures base + Tail(stack + [name], '\\') == base + Tail(stack, '\\') + "\\" + name
  {
    assert (stack + [name])[..|stack|] == stack;
  }

  lemma BelowShown(base: string, stack: seq<string>, had: bool)
    ensures Below(base, Shown(stack, had, '\\'))
         == Below(base, Tail(stack, '\\')) + if had && stack != [] then "\\" else ""
  {
    TailEmpty(stack, '\\');
    var tail := Tail(stack, '\\');
    if had && stack != [] {
      BelowLonger(base, tail, tail + ['\\']);
    } else {
      assert tail + "" == tail;
      assert Below(base, tail) + "" == Below(base, tail);
    }
  }

  lemma BelowLonger(base: string, tail: string, longer: string)
    requires tail != "" && longer == tail + ['\\']
    ensures Below(base, longer) == Below(base, tail) + "\\"
  {
    assert longer[1..] == tail[1..] + ['\\'];
  }

  lemma CutBelow(base: string, stack: seq<string>)
    requires base != "" && CleanStack(stack) && stack != []
    ensures var text := Below(base, Tail(stack, '\\'));
            && base <= text
            && var found := RFind(text[|base|..], '\\');
               var cut := if found.Some? then found.value else 0;
               |base| + cut <= |text| && text[..|base| + cut] == Below(base, Tail(stack[..|stack| - 1], '\\'))
  {
    var tail := Tail(stack, '\\');
    var shorter := Tail(stack[..|stack| - 1], '\\');
    TailEmpty(stack, '\\');
    TailEmpty(stack[..|stack| - 1], '\\');
    if EndsWithChar(base, '\\') {
      CutLastBelow(stack);
      assert (base + tail[1..])[|base|..] == tail[1..];
      if |stack| > 1 {
        PrefixOfSum(base, tail[1..], |shorter| - 1);
      }
    } else {
      CutLast(stack);
      assert (base + tail)[|base|..] == tail;
      PrefixOfSum(base, tail, |shorter|);
    }
  }

  lemma PrefixOfSum(front: string, back: string, n: nat)
    requires n <= |back|
    ensures (front + back)[..|front| + n] == front + back[..n]
  {
  }

  lemma PushBelow(base: string, stack: seq<string>, name: string)
    requires base != "" && CleanStack(stack)
    ensures var text := Below(base, Tail(stack, '\\'));
            Below(base, Tail(stack + [name], '\\')) == (if EndsWithChar(text, '\\') then text else text + "\\") + name
  {
    var tail := Tail(stack, '\\');
    TailEmpty(stack, '\\');
    assert (stack + [name])[..|stack|] == stack;
    assert Tail(stack + [name], '\\') == tail + ['\\'] + name;
    assert EndsWithChar(Below(base, tail), '\\') <==> stack == [] && EndsWithChar(base, '\\') by {
      BelowShape(base, stack);
    }
    if !EndsWithChar(base, '\\') {
      assert base + (tail + ['\\'] + name) == base + tail + "\\" + name;
    } else if stack == [] {
      assert (tail + ['\\'] + name)[1..] == name;
    } else {
      assert (tail + ['\\'] + name)[1..] == tail[1..] + ['\\'] + name;
      assert base + (tail[1..] + ['\\'] + name) == base + tail[1..] + "\\" + name;
    }
  }

  /** Without its leading separator, the rendered tail is the same below either kind of base. */
  lemma BelowTail(base: string, stack: seq<string>, had: bool)
    requires base != "" && CleanStack(stack) && stack != []
    ensures var rest := Below(base, Shown(stack, had, '\\'))[|base|..];
            WithoutSeparator(rest) == Shown(stack, had, '\\')[1..]
  {
    TailFront(stack, '\\');
    var shown := Shown(stack, had, '\\');
    assert shown[0] == '\\' && stack[0] != "" && '\\' !in stack[0];
    assert shown[1] == stack[0][0];
    assert (base + shown[1..])[|base|..] == shown[1..];
    assert (base + shown)[|base|..] == shown;
  }
}
