/**
 What the resolver makes of a slash input (crates/fsw-path/src/lib.rs), spelled out: the walk over its
 components with the texts of rules R10 to R12, and the text each result is printed as.
 */
module PathLaw {
  import opened Results
  import opened PathText
  import opened PathNormal
  import opened PathRender
  import opened PathResolve

  /** The names left after the components: empty ones and `.` are passed over, `..` takes the last name back. */
  function Walk(components: seq<string>): Option<seq<string>> {
    if components == [] then Some([])
    else
      var last := components[|components| - 1];
      match Walk(components[..|components| - 1])
      case None => None
      case Some(names) =>
        if last == "" || last == "." then Some(names)
        else if last != ".." then Some(names + [last])
        else if names == [] then None
        else Some(names[..|names| - 1])
  }

  lemma {:induction false} WalkIsNormalize(components: seq<string>)
    ensures Normalize(components, []) == Walk(components)
  {
    if components != [] {
      var n := |components| - 1;
      var last := components[n];
      WalkIsNormalize(components[..n]);
      NormalizeAppend(components[..n], [last], []);
      assert components == components[..n] + [last];
      if Walk(components[..n]).Some? {
        NormalizeOne(last, Walk(components[..n]).value);
      }
    }
  }

  /** A root, the names behind separators, and the separator typed at the end if there is a name. */
  function Spelled(root: string, names: seq<string>, separator: char, trailing: bool): string {
    if names == [] then root
    else root + [separator] + Join(names, separator) + if trailing then [separator] else ""
  }

  lemma {:induction false} TailIsJoin(stack: seq<string>, separator: char)
    requires stack != []
    ensures Tail(stack, separator) == [separator] + Join(stack, separator)
  {
    if |stack| > 1 {
      var n := |stack| - 1;
      TailIsJoin(stack[..n], separator);
      JoinSnoc(stack[..n], stack[n], separator);
      assert stack == stack[..n] + [stack[n]];
    } else {
      assert stack[..0] == [];
    }
  }

  lemma ShownIsSpelled(root: string, stack: seq<string>, separator: char, trailing: bool)
    ensures root + Shown(stack, trailing, separator) == Spelled(root, stack, separator, trailing)
  {
    if stack != [] {
      TailIsJoin(stack, separator);
    }
  }

  /** A path below a distribution: its UNC text and its slash form. */
  function InDistribution(distribution: string, components: seq<string>, trailing: bool): Result<Resolved, ResolveError> {
    match Walk(components)
    case None => Err(TraversalAboveRoot)
    case Some(names) =>
      Ok(Distribution(DistributionPath(
        distribution, Spelled("\\\\wsl.localhost\\" + distribution, names, '\\', trailing),
        if names == [] then "/" else Spelled("", names, '/', trailing), trailing)))
  }

  lemma NamesAreWalked(tail: string)
    ensures Names(tail) == Walk(Split(tail, '/'))
  {
    WalkIsNormalize(Split(tail, '/'));
  }

  lemma SlashIsSpelled(names: seq<string>, trailing: bool)
    ensures SlashForm(names, trailing) == if names == [] then "/" else Spelled("", names, '/', trailing)
  {
    ShownIsSpelled("", names, '/', trailing);
    assert "" + Shown(names, trailing, '/') == Shown(names, trailing, '/');
  }

  lemma RenderedIsSpelled(tail: string, distribution: string, trailing: bool)
    ensures AsResolved(Rendered(tail, distribution, trailing)) == InDistribution(distribution, Split(tail, '/'), trailing)
  {
    NamesAreWalked(tail);
    if Names(tail).Some? {
      ShownIsSpelled(DistributionBase(distribution), Names(tail).value, '\\', trailing);
      SlashIsSpelled(Names(tail).value, trailing);
      BaseIsSpelled(distribution);
    }
  }

  lemma BaseIsSpelled(distribution: string)
    ensures DistributionBase(distribution) == "\\\\wsl.localhost\\" + distribution
  {
  }

  /** The default distribution: the preferred one if it is usable, else the one of WSL. */
  predicate IsUsable(same: SameName, registry: seq<string>, name: Option<string>) {
    name.Some? && name.value != "" && exists i :: 0 <= i < |registry| && same(registry[i], name.value)
  }

  /** An input that is none of the four malformed ones. */
  predicate IsWellFormed(input: string) {
    && input != "" && input[0] == '/' && (|input| > 1 ==> input[1] != '/')
    && forall i :: 0 <= i < |input| ==> input[i] != '\0' && input[i] != '\\'
  }

  /** A malformed input gets the first error that applies. */
  lemma MalformedIsExact(same: SameName, input: string, ctx: Context)
    requires !IsWellFormed(input)
    ensures Resolve(same, input, ctx)
         == Err(if input == "" || input[0] != '/' then NotASlashPath
                else if |input| > 1 && input[1] == '/' then DoubleLeadingSlash
                else if '\0' in input then EmbeddedNul
                else BackslashNotAllowed)
  {
  }

  lemma WellFormedHasNoError(input: string)
    requires IsWellFormed(input)
    ensures ShapeError(input).None?
  {
  }

  /** Strict mode: a first component that is registered is the distribution, and only the bare `/` is the root. */
  lemma StrictIsExact(same: SameName, input: string, segment: string, rest: string, ctx: Context)
    requires IsWellFormed(input) && ctx.mode == DistributionList
    requires input == "/" + segment + rest && '/' !in segment && (rest != "" ==> rest[0] == '/')
    ensures Resolve(same, input, ctx)
         == if segment != "" && IsUsable(same, ctx.registry, Some(segment))
            then InDistribution(segment, Split(if rest == "" then "" else rest[1..], '/'), rest != "" && rest[|rest| - 1] == '/')
            else if input == "/" then Ok(WslRoot)
            else Err(UnregisteredDistribution)
  {
    WellFormedHasNoError(input);
    SegmentOf(input, segment, rest);
    if segment != "" {
      TrailingOf(input, segment, rest);
    }
    RenderedIsSpelled(if rest == "" then "" else rest[1..], segment, rest != "" && rest[|rest| - 1] == '/');
  }

  lemma TrailingOf(input: string, segment: string, rest: string)
    requires input == "/" + segment + rest && '/' !in segment && segment != ""
    ensures |input| > 1 && (EndsWithChar(input, '/') <==> rest != "" && rest[|rest| - 1] == '/')
  {
    assert rest == "" ==> input[|input| - 1] == segment[|segment| - 1];
  }

  lemma SegmentOf(input: string, segment: string, rest: string)
    requires input == "/" + segment + rest && '/' !in segment && (rest != "" ==> rest[0] == '/')
    ensures var (found, from) := Segment(input);
            found == segment && from <= |input| && input[from..] == if rest == "" then "" else rest[1..]
  {
    assert input[1..] == segment + rest;
    if rest != "" {
      FindUnique(input[1..], '/', |segment|);
    }
    assert input[1..][..|segment|] == segment;
  }

  /** Default mode: the whole input lies below the default distribution. */
  lemma DefaultIsExact(same: SameName, input: string, ctx: Context, trailing: bool)
    requires IsWellFormed(input) && ctx.mode == DefaultDistribution && trailing == (input[|input| - 1] == '/')
    ensures Resolve(same, input, ctx)
         == if IsUsable(same, ctx.registry, ctx.preferred)
            then InDistribution(ctx.preferred.value, Split(input[1..], '/'), trailing)
            else if IsUsable(same, ctx.registry, ctx.wslDefault)
            then InDistribution(ctx.wslDefault.value, Split(input[1..], '/'), trailing)
            else Err(NoDefaultDistribution)
  {
    if DefaultTarget(same, ctx).Some? {
      RenderedIsSpelled(input[1..], DefaultTarget(same, ctx).value, EndsWithChar(input, '/'));
    }
  }

  /** A path below a folder: the folder, where a drive alone keeps a separator, and the names. */
  function InFolder(trimmed: string, components: seq<string>, trailing: bool): Result<FolderPath, ResolveError> {
    match Walk(components)
    case None => Err(TraversalAboveRoot)
    case Some(names) =>
      Ok(FolderPath(
        if names == [] && '\\' !in trimmed then trimmed + "\\" else Spelled(trimmed, names, '\\', trailing),
        if names == [] then "/" else Spelled("", names, '/', trailing), trailing))
  }

  /** Below a custom root: the root without the separators it ends in. */
  lemma UnderRootIsExact(input: string, root: string, trimmed: string, trailing: bool)
    requires IsWellFormed(input) && trailing == (input[|input| - 1] == '/')
    requires trimmed <= root && !EndsWithChar(trimmed, '\\') && forall i :: |trimmed| <= i < |root| ==> root[i] == '\\'
    ensures UnderRoot(input, root) == InFolder(trimmed, Split(input[1..], '/'), trailing)
  {
    OneTrim(root, '\\', trimmed);
    NamesAreWalked(input[1..]);
    if Names(input[1..]).Some? {
      SlashIsSpelled(Names(input[1..]).value, trailing);
      BelowIsSpelled(trimmed, Names(input[1..]).value, trailing);
    }
  }

  lemma {:induction false} OneTrim(text: string, c: char, trimmed: string)
    requires trimmed <= text && !EndsWithChar(trimmed, c) && forall i :: |trimmed| <= i < |text| ==> text[i] == c
    ensures TrimEnd(text, c) == trimmed
  {
    if EndsWithChar(text, c) {
      OneTrim(text[..|text| - 1], c, trimmed);
    }
  }

  lemma BelowIsSpelled(trimmed: string, names: seq<string>, trailing: bool)
    requires !EndsWithChar(trimmed, '\\')
    ensures Below(if '\\' in trimmed then trimmed else trimmed + "\\", Shown(names, trailing, '\\'))
         == if names == [] && '\\' !in trimmed then trimmed + "\\" else Spelled(trimmed, names, '\\', trailing)
  {
    ShownIsSpelled(trimmed, names, '\\', trailing);
    TailEmpty(names, '\\');
    var shown := Shown(names, trailing, '\\');
    if names != [] {
      assert shown == "\\" + shown[1..];
      assert trimmed + "\\" + shown[1..] == trimmed + shown;
    }
  }
}
