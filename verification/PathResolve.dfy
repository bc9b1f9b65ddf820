/**
 Resolving a forward-slash input (crates/fsw-path/src/lib.rs): the bare-slash modes, the custom root
 and what each promises. Case-insensitive equality of names is a relation passed in: the proofs use
 none of its properties, or only those they name.
 */
module PathResolve {
  import opened Results
  import opened Ascii
  import opened DistributionNames
  import opened PathText
  import opened PathNormal
  import opened PathRender

  /** eq_ignore_case. */
  type SameName = (string, string) -> bool

  datatype BareSlashMode = DistributionList | DefaultDistribution

  datatype Context = Context(
    registry: seq<string>,
    mode: BareSlashMode,
    preferred: Option<string>,
    wslDefault: Option<string>)

  datatype Resolved =
    | WslRoot
    | Distribution(path: DistributionPath)
    | Folder(folder: FolderPath)

  predicate IsRegistered(same: SameName, registry: seq<string>, name: string) {
    exists i :: 0 <= i < |registry| && same(registry[i], name)
  }

  /** Context::list_mode. */
  function ListMode(registry: seq<string>): Context {
    Context(registry, DistributionList, None, None)
  }

  /** The distribution a bare slash opens. */
  function DefaultTarget(same: SameName, ctx: Context): Option<string> {
    if ctx.preferred.Some? && ctx.preferred.value != "" && IsRegistered(same, ctx.registry, ctx.preferred.value)
    then ctx.preferred
    else if ctx.wslDefault.Some? && ctx.wslDefault.value != "" && IsRegistered(same, ctx.registry, ctx.wslDefault.value)
    then ctx.wslDefault
    else None
  }

  /** The text up to the first `/` after the leading one, and where component scanning starts after it. */
  function Segment(input: string): (string, nat)
    requires input != ""
  {
    var at := Find(input[1..], '/');
    (input[1..][..at], if at < |input| - 1 then at + 2 else |input|)
  }

  function AsResolved(rendered: Result<DistributionPath, ResolveError>): Result<Resolved, ResolveError> {
    match rendered
    case Ok(path) => Ok(Distribution(path))
    case Err(error) => Err(error)
  }

  /** resolve. */
  function Resolve(same: SameName, input: string, ctx: Context): Result<Resolved, ResolveError> {
    match ShapeError(input)
    case Some(error) => Err(error)
    case None =>
      var (segment, restFrom) := Segment(input);
      if ctx.mode == DistributionList && segment != "" && IsRegistered(same, ctx.registry, segment) then
        AsResolved(Rendered(input[restFrom..], segment, |input| > 1 && EndsWithChar(input, '/')))
      else if ctx.mode == DistributionList then
        if input == "/" then Ok(WslRoot) else Err(UnregisteredDistribution)
      else
        match DefaultTarget(same, ctx)
        case None => Err(NoDefaultDistribution)
        case Some(target) => AsResolved(Rendered(input[1..], target, EndsWithChar(input, '/')))
  }

  /** The same through a reused buffer: its old contents never show. */
  method ResolveInto(same: SameName, input: string, ctx: Context, buf: RenderBuf)
      returns (result: Result<Resolved, ResolveError>)
    modifies buf
    ensures result == Resolve(same, input, ctx)
    ensures result.Ok? && result.value.Distribution? ==>
      buf.unc == result.value.path.uncDisplay && buf.linux == result.value.path.linuxPath
  {
    var shape := ShapeError(input);
    if shape.Some? {
      return Err(shape.value);
    }
    var (segment, restFrom) := Segment(input);
    if ctx.mode == DistributionList && segment != "" && IsRegistered(same, ctx.registry, segment) {
      var rendered := buf.Render(input, segment, restFrom, |input| > 1 && EndsWithChar(input, '/'));
      return AsResolved(rendered);
    }
    if ctx.mode == DistributionList {
      return if input == "/" then Ok(WslRoot) else Err(UnregisteredDistribution);
    }
    var target := DefaultTarget(same, ctx);
    if target.None? {
      return Err(NoDefaultDistribution);
    }
    var rendered := buf.Render(input, target.value, 1, EndsWithChar(input, '/'));
    return AsResolved(rendered);
  }

  lemma SegmentOfRewrite(target: string, input: string)
    requires '/' !in target && input != "" && input[0] == '/'
    ensures Segment("/" + target + input) == (target, |target| + 2)
    ensures ("/" + target + input)[|target| + 2..] == input[1..]
  {
    var text := "/" + target + input;
    assert text[1..] == target + ['/'] + input[1..];
    FindUnique(text[1..], '/', |target|);
    assert text[1..][..|target|] == target;
  }

  /**
   In default-distribution mode the distribution is passed out of band; the result is the one strict
   resolution of the rewritten text gives, errors and trailing separator included.
   */
  lemma RewriteEquivalence(same: SameName, input: string, ctx: Context)
    requires ShapeError(input).None? && ctx.mode == DefaultDistribution
    requires DefaultTarget(same, ctx).Some? && IsValidDistributionName(DefaultTarget(same, ctx).value)
    ensures var target := DefaultTarget(same, ctx).value;
            Resolve(same, input, ctx) == Resolve(same, "/" + target + input, ListMode(ctx.registry))
  {
    var target := DefaultTarget(same, ctx).value;
    NameHasNoSeparator(target);
    StrictOfRewrite(same, target, input, ctx.registry);
  }

  lemma NameHasNoSeparator(name: string)
    requires IsValidDistributionName(name)
    ensures name != "" && '/' !in name && '\\' !in name && '\0' !in name
  {
  }

  /** Strict resolution of a path written out under a registered name. */
  lemma StrictOfRewrite(same: SameName, target: string, input: string, registry: seq<string>)
    requires target != "" && '/' !in target && '\\' !in target && '\0' !in target
    requires ShapeError(input).None? && IsRegistered(same, registry, target)
    ensures Resolve(same, "/" + target + input, ListMode(registry))
         == AsResolved(Rendered(input[1..], target, EndsWithChar(input, '/')))
  {
    RewrittenShape(target, input);
    SegmentOfRewrite(target, input);
  }

  /** Names produced from an input hold no separator and are proper names. */
  lemma NamesAreClean(tail: string)
    requires '\\' !in tail
    ensures Names(tail).Some? ==> CleanStack(Names(tail).value) && Free(Names(tail).value, '/')
  {
    PartsAreFree(tail, '/', '\\');
    WalkKeepsNames(Split(tail, '/'), []);
    WalkKeepsFree(Split(tail, '/'), '\\');
    WalkKeepsFree(Split(tail, '/'), '/');
  }

  /** What stands behind the first separator of joined names. */
  function Behind(stack: seq<string>): string
    requires stack != []
  {
    stack[0] + Tail(stack[1..], '/')
  }

  lemma Grouped(first: string, second: string, third: string)
    ensures first + second + third == first + (second + third)
  {
  }

  lemma TailIsBehind(stack: seq<string>)
    requires stack != []
    ensures Tail(stack, '/') == ['/'] + Behind(stack)
  {
    TailFront(stack, '/');
    Grouped(['/'], stack[0], Tail(stack[1..], '/'));
  }

  lemma SplitBehind(stack: seq<string>)
    requires Free(stack, '/') && stack != []
    ensures Split(Behind(stack), '/') == stack
  {
    SplitTail(stack[0], stack[1..], '/');
    assert [stack[0]] + stack[1..] == stack;
  }

  lemma NormalNames(stack: seq<string>)
    requires AllNames(stack)
    ensures Normalize(stack, []) == Some(stack)
  {
    NamesAreNormal(stack, []);
    assert [] + stack == stack;
  }

  lemma NamesWithTrailing(stack: seq<string>, text: string, longer: string)
    requires Split(text, '/') == stack && AllNames(stack) && longer == text + "/"
    ensures Names(longer) == Some(stack)
  {
    SplitTrailing(text, longer);
    NormalNames(stack);
    NormalizeAppend(stack, [""], []);
    NormalizeOne("", stack);
  }

  lemma TailEnd(stack: seq<string>)
    requires AllNames(stack) && Free(stack, '/') && stack != []
    ensures !EndsWithChar(Tail(stack, '/'), '/')
  {
    var last := stack[|stack| - 1];
    assert Tail(stack, '/')[|Tail(stack, '/')| - 1] == last[|last| - 1];
    assert '/' !in last;
  }

  /** Rendering is idempotent: the names read back from a printed slash path are the same names. */
  lemma NamesOfSlashForm(stack: seq<string>, had: bool)
    requires AllNames(stack) && Free(stack, '/')
    ensures SlashForm(stack, had)[0] == '/'
    ensures Names(SlashForm(stack, had)[1..]) == Some(stack)
    ensures stack != [] ==> (EndsWithChar(SlashForm(stack, had), '/') <==> had)
  {
    if stack == [] {
      assert Split("", '/') == [""];
      NormalizeOne("", []);
    } else {
      TailIsBehind(stack);
      SplitBehind(stack);
      TailEnd(stack);
      FormOfNames(stack, had, Tail(stack, '/'), Behind(stack));
      if had {
        NamesWithTrailing(stack, Behind(stack), Behind(stack) + "/");
      } else {
        NormalNames(stack);
      }
    }
  }

  lemma FormOfNames(stack: seq<string>, had: bool, tail: string, behind: string)
    requires stack != [] && tail == Tail(stack, '/') == ['/'] + behind
    ensures SlashForm(stack, had)[0] == '/' && SlashForm(stack, had)[1..] == if had then behind + "/" else behind
    ensures EndsWithChar(SlashForm(stack, had), '/') <==> had || EndsWithChar(tail, '/')
  {
    assert SlashForm(stack, had) == tail + if had then ['/'] else "";
  }

  /** A trailing separator adds one empty part. */
  lemma SplitTrailing(text: string, longer: string)
    requires longer == text + "/"
    ensures Split(longer, '/') == Split(text, '/') + [""]
  {
    assert longer == text + ['/'] + "";
    SplitAppend(text, '/', "", longer);
    assert Split("", '/') == [""];
  }

  /** Resolving a resolved path again, through its own printed form, changes nothing. */
  lemma PrintedPathResolvesToItself(same: SameName, input: string, registry: seq<string>)
    requires var result := Resolve(same, input, ListMode(registry));
             result.Ok? && result.value.Distribution?
    ensures var path := Resolve(same, input, ListMode(registry)).value.path;
            var again := Resolve(same, "/" + path.distribution + path.linuxPath, ListMode(registry));
            && again.Ok? && again.value.Distribution?
            && again.value.path.uncDisplay == path.uncDisplay
            && again.value.path.linuxPath == path.linuxPath
            && again.value.path.distribution == path.distribution
  {
    var (segment, restFrom) := Segment(input);
    var had := |input| > 1 && EndsWithChar(input, '/');
    PrintedAgain(same, segment, input[restFrom..], had, registry);
  }

  lemma PrintedAgain(same: SameName, segment: string, tail: string, had: bool, registry: seq<string>)
    requires segment != "" && '/' !in segment && '\\' !in segment && '\0' !in segment
    requires IsRegistered(same, registry, segment)
    requires '\\' !in tail && '\0' !in tail && Rendered(tail, segment, had).Ok?
    ensures var path := Rendered(tail, segment, had).value;
            var again := Resolve(same, "/" + segment + path.linuxPath, ListMode(registry));
            && again.Ok? && again.value.Distribution?
            && again.value.path.uncDisplay == path.uncDisplay
            && again.value.path.linuxPath == path.linuxPath
            && again.value.path.distribution == path.distribution
  {
    var stack := Names(tail).value;
    var form := SlashForm(stack, had);
    NamesAreClean(tail);
    NamesOfSlashForm(stack, had);
    SegmentOfRewrite(segment, form);
    SlashFormChars(stack, had, tail);
    RewrittenShape(segment, form);
    var text := "/" + segment + form;
    assert Rendered(form[1..], segment, EndsWithChar(text, '/')).Ok?;
  }

  lemma RewrittenShape(segment: string, form: string)
    requires segment != "" && '/' !in segment && '\\' !in segment && '\0' !in segment
    requires form != "" && '\\' !in form && '\0' !in form
    ensures ShapeError("/" + segment + form).None?
    ensures EndsWithChar("/" + segment + form, '/') <==> EndsWithChar(form, '/')
  {
  }

  lemma SlashFormChars(stack: seq<string>, had: bool, tail: string)
    requires Names(tail) == Some(stack) && '\\' !in tail && '\0' !in tail
    ensures '\\' !in SlashForm(stack, had) && '\0' !in SlashForm(stack, had)
  {
    PartsAreFree(tail, '/', '\\');
    PartsAreFree(tail, '/', '\0');
    WalkKeepsFree(Split(tail, '/'), '\\');
    WalkKeepsFree(Split(tail, '/'), '\0');
    TailFree(stack, '/', '\\');
    TailFree(stack, '/', '\0');
  }

  lemma {:induction false} TailFree(stack: seq<string>, separator: char, c: char)
    requires Free(stack, c) && c != separator
    ensures c !in Tail(stack, separator)
  {
    if stack != [] {
      TailFree(stack[..|stack| - 1], separator, c);
    }
  }

  predicate IsForbiddenInRoot(c: char) {
    c in "\"<>|*?" || IsControl(c)
  }

  predicate HasDriveLetter(text: string) {
    |text| >= 2 && IsAlphabetic(text[0]) && text[1] == ':'
  }

  /** No component is relative or ends in what Win32 strips. */
  predicate StableComponents(text: string) {
    forall component :: component in Split(text, '\\') ==>
      component == ""
      || (component != "." && component != ".." && !EndsWithChar(component, '.') && !EndsWithChar(component, ' '))
  }

  /** The rest of a root may hold neither a stream separator nor a wildcard. */
  predicate PlainFrom(root: string, from: nat) {
    forall i :: from <= i < |root| ==> root[i] != ':' && !IsForbiddenInRoot(root[i])
  }

  /** is_valid_windows_root. */
  predicate IsValidWindowsRoot(same: SameName, root: string) {
    && root != "" && '/' !in root && '\0' !in root
    && !StartsWith(root, "\\\\.\\") && !StartsWith(root, "\\\\?\\") && !StartsWith(root, "\\??\\")
    && !same(TrimEnd(root, '\\'), WSL_ROOT_UNC)
    && StableComponents(TrimEnd(root, '\\'))
    && if HasDriveLetter(root) then
         (|root| == 2 || root[2] == '\\') && PlainFrom(root, 2)
       else
         StartsWith(root, "\\\\") && NamesShare(root) && PlainFrom(root, 2)
  }

  /** `\\server\share`: both parts of a UNC root are there. */
  predicate NamesShare(root: string)
    requires |root| >= 2
  {
    var server := Find(root[2..], '\\');
    0 < server < |root| - 2 && 0 < Find(root[2 + server + 1..], '\\')
  }

  /** The base a valid root renders on: the root without the separators it may end in. */
  lemma ValidRootBase(same: SameName, root: string)
    requires IsValidWindowsRoot(same, root)
    ensures var base := FolderBase(root);
            && '/' !in base
            && if HasDriveLetter(root) then
                 HasDriveLetter(base) && |base| >= 3 && base[2] == '\\' && base[0] == root[0]
               else
                 StartsWith(base, "\\\\") && NamesShare(base) && base <= root && PlainFrom(base, 2)
                 && !EndsWithChar(base, '\\')
  {
    if HasDriveLetter(root) {
      DriveBase(root);
    } else {
      UncBase(root);
    }
  }

  lemma DriveBase(root: string)
    requires HasDriveLetter(root) && '/' !in root && (|root| == 2 || root[2] == '\\')
    ensures var base := FolderBase(root);
            '/' !in base && HasDriveLetter(base) && |base| >= 3 && base[2] == '\\' && base[0] == root[0]
  {
  }

  lemma UncBase(root: string)
    requires StartsWith(root, "\\\\") && NamesShare(root) && PlainFrom(root, 2) && '/' !in root
    ensures var base := FolderBase(root);
            && '/' !in base && StartsWith(base, "\\\\") && NamesShare(base) && base <= root && PlainFrom(base, 2)
            && !EndsWithChar(base, '\\')
  {
    var trimmed := TrimEnd(root, '\\');
    TrimmedNamesShare(root, trimmed);
    PlainPrefix(root, trimmed);
    assert FolderBase(root) == trimmed;
  }

  lemma PlainPrefix(root: string, prefix: string)
    requires prefix <= root && PlainFrom(root, 2) && '/' !in root
    ensures PlainFrom(prefix, 2) && '/' !in prefix
  {
  }

  lemma TrimmedNamesShare(root: string, trimmed: string)
    requires StartsWith(root, "\\\\") && NamesShare(root) && trimmed == TrimEnd(root, '\\')
    ensures StartsWith(trimmed, "\\\\") && NamesShare(trimmed) && '\\' in trimmed
  {
    var server := Find(root[2..], '\\');
    var at := 2 + server + 1;
    assert Find(root[at..], '\\') > 0;
    assert root[at..] != "" && root[at] != '\\';
    assert |trimmed| > at;
    SameServer(root, trimmed, server);
    assert trimmed[at..][0] != '\\';
  }

  lemma SameServer(root: string, trimmed: string, server: nat)
    requires trimmed <= root && |trimmed| > 2 + server && server == Find(root[2..], '\\')
    ensures Find(trimmed[2..], '\\') == server && trimmed[2 + server] == '\\'
  {
    assert trimmed[2..][server] == root[2..][server];
    assert trimmed[2..][..server] == root[2..][..server];
    FindUnique(trimmed[2..], '\\', server);
  }

  /** Everything resolved under a root starts with that root's base. */
  lemma UnderRootHasBase(input: string, root: string)
    requires UnderRoot(input, root).Ok?
    ensures FolderBase(root) <= UnderRoot(input, root).value.display
  {
  }

  /** The text names the provider root, in any casing, with or without trailing separators. */
  predicate IsProviderLiteral(text: string) {
    EqualIgnoringCase(TrimEnd(text, '\\'), WSL_ROOT_UNC)
  }

  /** A folder under a valid custom root is never the provider root that lists distributions. */
  lemma FolderIsNeverProvider(same: SameName, input: string, root: string)
    requires IsValidWindowsRoot(same, root) && UnderRoot(input, root).Ok?
    ensures !IsProviderLiteral(UnderRoot(input, root).value.display)
  {
    var display := UnderRoot(input, root).value.display;
    var base := FolderBase(root);
    ValidRootBase(same, root);
    UnderRootHasBase(input, root);
    if HasDriveLetter(root) {
      var trimmed := TrimEnd(display, '\\');
      assert display[1] == ':' && |trimmed| >= 2;
      assert trimmed[1] == ':';
      assert Lower(trimmed[1]) != Lower(WSL_ROOT_UNC[1]);
    } else {
      ShareIsNoProvider(base, display);
    }
  }

  lemma ShareIsNoProvider(base: string, display: string)
    requires base <= display && StartsWith(base, "\\\\") && NamesShare(base)
    ensures !IsProviderLiteral(display)
  {
    var trimmed := TrimEnd(display, '\\');
    var at := 2 + Find(base[2..], '\\');
    assert base[2..][at - 2] == '\\';
    assert Find(base[at + 1..], '\\') > 0;
    assert base[at + 1..] != "" && base[at + 1] != '\\';
    assert display[at] == '\\' && display[at + 1] == base[at + 1];
    assert |trimmed| > at + 1 && trimmed[at] == '\\';
    if |trimmed| == |WSL_ROOT_UNC| {
      assert WSL_ROOT_UNC[at] in "wsl.localhost";
      assert Lower(trimmed[at]) != Lower(WSL_ROOT_UNC[at]);
    }
  }
}
