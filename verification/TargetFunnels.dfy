/**
 The two funnels a slash input can take: the shell's (crates/fsw-core/src/lib.rs) and the browser's
 (crates/fsw-path/src/target.rs). Both claim `/mnt/<letter>` for the drive; they must agree.
 */
module TargetFunnels {
  import opened Results
  import opened Ascii
  import opened DistributionNames
  import opened PathText
  import opened PathNormal
  import opened PathRender
  import opened PathResolve
  import opened FileTargets

  datatype TargetBase =
    | NativePath(path: string)
    | WslDirectory(distribution: string, linuxPath: string)

  datatype Snapshot = Snapshot(
    distributions: seq<string>,
    defaultDistribution: Option<string>,
    mode: BareSlashMode,
    pinned: Option<string>,
    root: Option<string>)

  /** Snapshot::context. */
  function ContextOf(snapshot: Snapshot): Context {
    Context(snapshot.distributions, snapshot.mode, snapshot.pinned, snapshot.defaultDistribution)
  }

  /** A malformed root is no root. */
  function ValidRoot(same: SameName, root: Option<string>): Option<string> {
    if root.Some? && IsValidWindowsRoot(same, root.value) then root else None
  }

  /** `/mnt/<letter>` alone or followed by a separator. */
  predicate ClaimsDrive(input: string) {
    && StartsWith(input, "/mnt/") && |input| > 5 && IsAlphabetic(input[5])
    && (|input| == 6 || input[6] == '/')
  }

  function AsFolder(rendered: Result<FolderPath, ResolveError>): Result<Resolved, ResolveError> {
    match rendered
    case Ok(path) => Ok(Folder(path))
    case Err(error) => Err(error)
  }

  /** resolve_mnt_drive_resolved: None for an input the alias does not claim. */
  function MntDrive(input: string): Result<Option<Resolved>, ResolveError> {
    if !StartsWith(input, "/mnt/") then Ok(None)
    else if |input| <= 5 then Ok(None)
    else if !IsAlphabetic(input[5]) then Ok(None)
    else if |input| > 6 && input[6] != '/' then Ok(None)
    else if '\0' in input then Err(EmbeddedNul)
    else if '\\' in input then Err(BackslashNotAllowed)
    else
      match UnderRoot(if |input| > 6 then input[6..] else "/", [Upper(input[5])] + ":\\")
      case Err(error) => Err(error)
      case Ok(folder) => Ok(Some(Folder(folder)))
  }

  /** resolve_user_slash_path: the shell's funnel. */
  function ShellResolve(same: SameName, input: string, snapshot: Snapshot): Result<Resolved, ResolveError> {
    if ClaimsDrive(input) then
      match MntDrive(input)
      case Err(error) => Err(error)
      case Ok(Some(resolved)) => Ok(resolved)
      case Ok(None) => Err(NotASlashPath)
    else
      var root := ValidRoot(same, snapshot.root);
      if !StartsWith(input, "/") then Err(NotASlashPath)
      else
        var segment := Split(input[1..], '/')[0];
        var explicit :=
          snapshot.mode == DistributionList && root.None? && segment != "" && IsRegistered(same, snapshot.distributions, segment);
        if !explicit && root.Some? then AsFolder(UnderRoot(input, root.value))
        else Resolve(same, input, ContextOf(snapshot))
  }

  function SlashRejection(error: ResolveError): TargetError {
    Rejected(SlashPath(error))
  }

  /** target_from_resolved. */
  function TargetOf(resolved: Resolved): Result<UserTarget, TargetError> {
    match resolved
    case WslRoot => Ok(UserTarget(NavigationRoot, WSL_ROOT_UNC, None))
    case Distribution(path) =>
      Ok(UserTarget(WslDistribution, path.uncDisplay, Some((path.distribution, path.linuxPath))))
    case Folder(folder) => NativeTarget(folder.display)
  }

  function TargetOfResult(result: Result<Resolved, ResolveError>): Result<UserTarget, TargetError> {
    match result
    case Err(error) => Err(SlashRejection(error))
    case Ok(resolved) => TargetOf(resolved)
  }

  /** resolve_mnt_drive. */
  function MntTarget(input: string): Result<Option<UserTarget>, TargetError> {
    match MntDrive(input)
    case Err(error) => Err(SlashRejection(error))
    case Ok(None) => Ok(None)
    case Ok(Some(resolved)) =>
      match TargetOf(resolved)
      case Err(error) => Err(error)
      case Ok(target) => Ok(Some(target.(kind := LocalDrive)))
  }

  /** resolve_slash_target. */
  function SlashTarget(same: SameName, input: string, context: Option<Context>, customRoot: Option<string>)
      : Result<UserTarget, TargetError>
    requires StartsWith(input, "/")
  {
    match MntTarget(input)
    case Err(error) => Err(error)
    case Ok(Some(target)) => Ok(target)
    case Ok(None) =>
      if |input| > 1 && input[1] == '/' then Err(SlashRejection(DoubleLeadingSlash))
      else if '\0' in input then Err(SlashRejection(EmbeddedNul))
      else if '\\' in input then Err(SlashRejection(BackslashNotAllowed))
      else if context.None? then Err(NeedsContext)
      else
        var segment := Split(input[1..], '/')[0];
        var root := ValidRoot(same, customRoot);
        var explicit :=
          root.None? && context.value.mode == DistributionList && segment != ""
          && IsRegistered(same, context.value.registry, segment);
        if explicit then TargetOfResult(Resolve(same, input, context.value))
        else if root.Some? then TargetOfResult(AsFolder(UnderRoot(input, root.value)))
        else TargetOfResult(Resolve(same, input, context.value))
  }

  /** resolve_relative. */
  function RelativeTarget(same: SameName, input: string, context: Option<Context>, base: Option<TargetBase>)
      : Result<UserTarget, TargetError>
  {
    match base
    case None => Err(NeedsContext)
    case Some(given) =>
      if '\0' in input || IsDevicePath(input) then Err(Rejected(InvalidPath))
      else
        match given
        case NativePath(path) => (
          match NativeTarget(path)
          case Err(error) => Err(error)
          case Ok(target) =>
            var front := target.nativePath;
            NativeTarget((if EndsWithChar(front, '\\') then front else front + "\\") + Swap(input, '/', '\\'))
        )
        case WslDirectory(distribution, linuxPath) =>
          if !IsValidDistributionName(distribution) || !StartsWith(linuxPath, "/") || '\\' in linuxPath then
            Err(Rejected(InvalidPath))
          else if context.None? then Err(NeedsContext)
          else
            var full := "/" + distribution + (TrimEnd(linuxPath, '/') + ("/" + input));
            TargetOfResult(Resolve(same, full, ListMode(context.value.registry)))
  }

  /** has_other_uri_scheme. */
  predicate HasOtherScheme(input: string) {
    var colon := Find(input, ':');
    colon < |input| && colon > 1
    && forall i :: 0 <= i < colon ==>
         IsAlphabetic(input[i]) || '0' <= input[i] <= '9' || input[i] in "+-." || (i > 0 && input[i] == '_')
  }

  predicate LooksLikeExpansion(input: string) {
    StartsWith(input, "%") || StartsWith(input, "$") || StartsWith(input, "~")
  }

  predicate IsAbsoluteNative(input: string) {
    || StartsWith(input, "\\\\")
    || (|input| >= 3 && IsAlphabetic(input[0]) && input[1] == ':' && (input[2] == '\\' || input[2] == '/'))
  }

  /** resolve_user_target (crates/fsw-path/src/target.rs). */
  function ResolveTarget(same: SameName, input: string, context: Option<Context>, customRoot: Option<string>,
                         base: Option<TargetBase>): Result<UserTarget, TargetError> {
    if input == "" then Err(Rejected(InvalidPath))
    else if IsDevicePath(input) then Err(Rejected(DevicePath))
    else if HasFileScheme(input) then ResolveFileUri(input)
    else if HasOtherScheme(input) || LooksLikeExpansion(input) then Err(NotHandled)
    else if IsAbsoluteNative(input) then NativeTarget(input)
    else if StartsWith(input, "/") then SlashTarget(same, input, context, customRoot)
    else RelativeTarget(same, input, context, base)
  }

  /** resolve_user_target (crates/fsw-core/src/lib.rs): the browser's funnel. */
  function BrowserResolve(same: SameName, input: string, snapshot: Snapshot, base: Option<TargetBase>)
      : Result<UserTarget, TargetError>
  {
    ResolveTarget(same, input, Some(ContextOf(snapshot)), ValidRoot(same, snapshot.root), base)
  }

  /** A claimed input always has an answer, so the shell funnel's arm for none is never taken. */
  lemma ClaimIsExact(input: string)
    ensures ClaimsDrive(input) ==> MntDrive(input).Err? || MntDrive(input).value.Some?
    ensures !ClaimsDrive(input) ==> MntDrive(input) == Ok(None)
  {
  }

  /** The alias opens the upper-case drive, below it the normalised names of what follows the letter. */
  lemma AliasOpensDrive(input: string)
    requires ClaimsDrive(input) && '\0' !in input && '\\' !in input && !(|input| > 7 && input[7] == '/')
    ensures var drive := [Upper(input[5])] + ":\\";
            var had := |input| == 6 || EndsWithChar(input, '/');
            MntDrive(input)
            == match Names(if |input| > 6 then input[7..] else "")
               case None => Err(TraversalAboveRoot)
               case Some(stack) =>
                 var below := Shown(stack, had, '\\');
                 Ok(Some(Folder(FolderPath(drive + if below == "" then "" else below[1..], SlashForm(stack, had), had))))
  {
    DriveIsFolderBase(Upper(input[5]));
    if |input| > 6 {
      assert input[6..][0] == '/' && input[6..][1..] == input[7..];
      assert input[6..][|input| - 7] == input[|input| - 1];
    }
  }

  /** An absolute native path is never taken for anything else. */
  lemma NoScheme(input: string)
    requires IsAbsoluteNative(input)
    ensures !HasFileScheme(input)
  {
    if |input| >= 5 {
      assert input[..5][1] == input[1] && input[..5][0] == input[0];
    }
  }

  lemma AbsoluteInputsAreNative(same: SameName, input: string, context: Option<Context>, customRoot: Option<string>,
                                base: Option<TargetBase>)
    requires IsAbsoluteNative(input) && !IsDevicePath(input)
    ensures ResolveTarget(same, input, context, customRoot, base) == NativeTarget(input)
  {
    NoScheme(input);
    if !StartsWith(input, "\\\\") {
      assert input[..1] == [input[0]];
      FindUnique(input, ':', 1);
    } else {
      assert input[0] == '\\';
    }
  }

  lemma SlashInputsAreNotUris(same: SameName, input: string, context: Option<Context>, customRoot: Option<string>,
                              base: Option<TargetBase>)
    requires StartsWith(input, "/")
    ensures ResolveTarget(same, input, context, customRoot, base) == SlashTarget(same, input, context, customRoot)
  {
    assert input[0] == '/';
    assert !IsDevicePath(input);
    if |input| >= 5 {
      assert Lower(input[..5][0]) == '/';
    }
    assert !HasOtherScheme(input);
  }

  /** A folder the renderer can show: below a drive, or below a share. */
  ghost predicate IsFolderBase(base: string) {
    && '/' !in base
    && (IsDrivePath(base)
        || (StartsWith(base, "\\\\") && NamesShare(base) && ':' !in base && !IsDevicePath(base) && !EndsWithChar(base, '\\')))
  }

  /** The drive letter, in upper case. */
  function Capitalized(display: string): string
    requires display != ""
  {
    [Upper(display[0])] + display[1..]
  }

  lemma TailHasNoSlash(tail: string, had: bool)
    requires '\\' !in tail && Names(tail).Some?
    ensures '/' !in Shown(Names(tail).value, had, '\\')
    ensures var shown := Shown(Names(tail).value, had, '\\'); shown == "" || shown[0] == '\\'
  {
    var stack := Names(tail).value;
    NamesAreClean(tail);
    TailFree(stack, '\\', '/');
    TailEmpty(stack, '\\');
  }

  lemma NotInSlice(text: string, c: char, from: nat, to: nat)
    requires c !in text && from <= to <= |text|
    ensures c !in text[from..to]
  {
  }

  lemma ShareNamed(base: string, shown: string)
    requires StartsWith(base, "\\\\") && NamesShare(base) && ':' !in base
    requires shown == "" || shown[0] == '\\'
    ensures NamesServerAndShare((base + shown)[2..])
  {
    var rest := base[2..];
    var at := Find(rest, '\\');
    var server := rest[..at];
    var tail := base[2 + at + 1..];
    NotInSlice(base, ':', 2, 2 + at);
    NotInSlice(base, ':', 2 + at + 1, |base|);
    assert server == base[2..2 + at];
    assert tail != "" && base[2 + at] == '\\';
    SplitBase(base, shown, at, server, tail);
    ShareOfParts((base + shown)[2..], server, tail, shown);
  }

  lemma SplitBase(base: string, shown: string, at: nat, server: string, tail: string)
    requires 2 + at < |base| && base[2 + at] == '\\' && server == base[2..2 + at] && tail == base[2 + at + 1..]
    ensures (base + shown)[2..] == server + ['\\'] + (tail + shown)
  {
  }

  lemma ShareOfParts(longer: string, server: string, tail: string, shown: string)
    requires longer == server + ['\\'] + (tail + shown)
    requires server != "" && '\\' !in server && ':' !in server
    requires tail != "" && ':' !in tail && Find(tail, '\\') > 0
    requires shown == "" || shown[0] == '\\'
    ensures NamesServerAndShare(longer)
  {
    ServerAndShareOf(longer, server, tail + shown);
    ShareInside(tail, shown);
  }

  lemma ShareInside(tail: string, shown: string)
    requires tail != "" && Find(tail, '\\') > 0
    requires shown == "" || shown[0] == '\\'
    ensures var at := Find(tail + shown, '\\'); 0 < at <= |tail| && (tail + shown)[..at] <= tail
  {
    var text := tail + shown;
    var at := Find(text, '\\');
    assert tail[0] == tail[..Find(tail, '\\')][0] && tail[0] in tail[..Find(tail, '\\')];
    assert text[0] == tail[0];
    if shown == "" {
      assert text == tail;
    } else {
      assert text[|tail|] == '\\';
      assert '\\' in text[..|tail| + 1];
    }
    assert text[..at] == tail[..at];
  }

  /** A folder without control characters is accepted as it is, up to the case of its drive letter. */
  lemma FolderAccepted(base: string, shown: string)
    requires IsFolderBase(base) && '/' !in shown && (shown == "" || shown[0] == '\\')
    ensures var display := Below(base, shown);
            && display != ""
            && NativeTarget(display)
            == if HasControl(display) then Err(Rejected(InvalidPath))
               else Ok(UserTarget(if IsDrivePath(base) then LocalDrive else NativeUNC, Capitalized(display), None))
  {
    var display := Below(base, shown);
    if IsDrivePath(base) {
      DriveAccepted(base, display);
    } else {
      ShareAccepted(base, shown, display);
    }
  }

  lemma DriveAccepted(base: string, display: string)
    requires IsDrivePath(base) && base <= display && '/' !in display
    ensures NativeTarget(display)
         == if HasControl(display) then Err(Rejected(InvalidPath))
            else Ok(UserTarget(LocalDrive, Capitalized(display), None))
  {
    SwapNone(display, '/', '\\');
    assert display[0] == base[0] && display[1] == ':' && display[2] == '\\';
  }

  lemma ShareAccepted(base: string, shown: string, display: string)
    requires '/' !in base && '/' !in shown && (shown == "" || shown[0] == '\\')
    requires StartsWith(base, "\\\\") && NamesShare(base) && ':' !in base && !IsDevicePath(base)
    requires display == base + shown
    ensures NativeTarget(display)
         == if HasControl(display) then Err(Rejected(InvalidPath))
            else Ok(UserTarget(NativeUNC, Capitalized(display), None))
  {
    SwapNone(display, '/', '\\');
    ShareNamed(base, shown);
    DeviceAhead(base, display);
    assert StartsWith(display, "\\\\");
    if !HasControl(display) {
      ShareTaken(display);
    }
  }

  lemma ShareTaken(display: string)
    requires StartsWith(display, "\\\\") && Swap(display, '/', '\\') == display
    requires NamesServerAndShare(display[2..]) && !IsDevicePath(display) && !HasControl(display)
    ensures NativeTarget(display) == Ok(UserTarget(NativeUNC, Capitalized(display), None))
  {
    assert display[0] == '\\';
    assert Capitalized(display) == display;
  }

  lemma DeviceAhead(base: string, display: string)
    requires base <= display && |base| >= 4 && !IsDevicePath(base)
    ensures !IsDevicePath(display)
  {
  }

  /** The bases the two funnels can render folders on. */
  lemma RootIsFolderBase(same: SameName, root: string)
    requires IsValidWindowsRoot(same, root)
    ensures IsFolderBase(FolderBase(root))
  {
    ValidRootBase(same, root);
    var base := FolderBase(root);
    if !HasDriveLetter(root) {
      assert forall i :: 0 <= i < |base| ==> base[i] != ':';
      assert |base| >= 5;
      DeviceBehind(base, root);
    }
  }

  lemma DeviceBehind(base: string, root: string)
    requires base <= root && |base| >= 4
    requires !StartsWith(root, "\\\\.\\") && !StartsWith(root, "\\\\?\\") && !StartsWith(root, "\\??\\")
    ensures !IsDevicePath(base)
  {
  }

  lemma DriveIsFolderBase(letter: char)
    requires IsAlphabetic(letter)
    ensures FolderBase([letter] + ":\\") == [letter] + ":\\" && IsFolderBase([letter] + ":\\")
  {
    var root := [letter] + ":\\";
    assert root[..2] == [letter, ':'];
    assert TrimEnd(root, '\\') == TrimEnd(root[..2], '\\') == root[..2];
  }

  /** What the browser makes of what the shell shows. */
  function Expected(shell: Result<Resolved, ResolveError>): Result<UserTarget, TargetError> {
    match shell
    case Err(error) => Err(SlashRejection(error))
    case Ok(WslRoot) => Ok(UserTarget(NavigationRoot, WSL_ROOT_UNC, None))
    case Ok(Distribution(path)) =>
      Ok(UserTarget(WslDistribution, path.uncDisplay, Some((path.distribution, path.linuxPath))))
    case Ok(Folder(folder)) =>
      if HasControl(folder.display) then Err(Rejected(InvalidPath))
      else
        Ok(UserTarget(if IsDrivePath(folder.display) then LocalDrive else NativeUNC,
                      if folder.display == "" then "" else Capitalized(folder.display), None))
  }

  lemma FolderTarget(input: string, root: string)
    requires IsFolderBase(FolderBase(root))
    ensures TargetOfResult(AsFolder(UnderRoot(input, root))) == Expected(AsFolder(UnderRoot(input, root)))
    ensures IsDrivePath(FolderBase(root)) && UnderRoot(input, root).Ok? ==>
      IsDrivePath(UnderRoot(input, root).value.display)
  {
    if UnderRoot(input, root).Ok? {
      var had := EndsWithChar(input, '/');
      var shown := Shown(Names(input[1..]).value, had, '\\');
      TailHasNoSlash(input[1..], had);
      FolderAccepted(FolderBase(root), shown);
      assert FolderBase(root) <= Below(FolderBase(root), shown);
    }
  }

  lemma MntAgrees(input: string)
    requires ClaimsDrive(input) && MntDrive(input).Ok? && MntDrive(input).value.Some?
    ensures MntDrive(input).value.value.Folder?
    ensures TargetOf(MntDrive(input).value.value) == Expected(Ok(MntDrive(input).value.value))
    ensures match TargetOf(MntDrive(input).value.value)
            case Err(error) => MntTarget(input) == Err(error)
            case Ok(target) => MntTarget(input) == Ok(Some(target))
  {
    var letter := Upper(input[5]);
    DriveIsFolderBase(letter);
    FolderTarget(if |input| > 6 then input[6..] else "/", [letter] + ":\\");
  }

  /** Past the alias the browser's own shape checks report what the resolver would. */
  lemma UnclaimedAgrees(same: SameName, input: string, snapshot: Snapshot)
    requires StartsWith(input, "/") && !ClaimsDrive(input) && MntDrive(input) == Ok(None)
    ensures SlashTarget(same, input, Some(ContextOf(snapshot)), ValidRoot(same, snapshot.root))
         == TargetOfResult(ShellResolve(same, input, snapshot))
  {
    var root := ValidRoot(same, snapshot.root);
    assert ValidRoot(same, root) == root;
    if ShapeError(input).Some? {
      assert ShellResolve(same, input, snapshot) == Err(ShapeError(input).value);
    }
  }

  lemma ShellTarget(same: SameName, input: string, snapshot: Snapshot)
    requires StartsWith(input, "/")
    ensures TargetOfResult(ShellResolve(same, input, snapshot)) == Expected(ShellResolve(same, input, snapshot))
  {
    ClaimIsExact(input);
    if ClaimsDrive(input) {
      if MntDrive(input).Ok? {
        MntAgrees(input);
      }
    } else if ValidRoot(same, snapshot.root).Some? {
      RootIsFolderBase(same, snapshot.root.value);
      FolderTarget(input, snapshot.root.value);
    } else {
      ResolvedIsNoFolder(same, input, ContextOf(snapshot));
    }
  }

  /**
   The two funnels agree on every slash input and every snapshot: the same slash error, or the same
   path up to the case of the drive letter; only folder and drive targets holding a C0 control
   character are refused by the browser's funnel alone.
   */
  lemma FunnelsAgree(same: SameName, input: string, snapshot: Snapshot, base: Option<TargetBase>)
    requires StartsWith(input, "/")
    ensures BrowserResolve(same, input, snapshot, base) == Expected(ShellResolve(same, input, snapshot))
    ensures BrowserResolve(same, input, snapshot, base) == TargetOfResult(ShellResolve(same, input, snapshot))
  {
    SlashInputsAreNotUris(same, input, Some(ContextOf(snapshot)), ValidRoot(same, snapshot.root), base);
    ClaimIsExact(input);
    ShellTarget(same, input, snapshot);
    if ClaimsDrive(input) {
      if MntDrive(input).Ok? {
        MntAgrees(input);
      }
    } else {
      UnclaimedAgrees(same, input, snapshot);
    }
  }

  lemma ResolvedIsNoFolder(same: SameName, input: string, ctx: Context)
    ensures TargetOfResult(Resolve(same, input, ctx)) == Expected(Resolve(same, input, ctx))
  {
  }

  /** A name that can own the bare slash. */
  predicate CanOwn(same: SameName, registry: seq<string>, name: Option<string>) {
    name.Some? && name.value != "" && IsRegistered(same, registry, name.value)
  }

  /** The distribution is the input's first segment. */
  predicate IsFirstSegment(name: string, input: string) {
    "/" + name <= input && (|input| > 1 + |name| ==> input[1 + |name|] == '/')
  }

  /** Without a root, who a slash input belongs to. */
  predicate BelongsTo(same: SameName, input: string, ctx: Context, resolved: Resolved) {
    match resolved
    case WslRoot => ctx.mode == DistributionList && input == "/"
    case Folder(_) => false
    case Distribution(path) =>
      if ctx.mode == DistributionList then
        IsRegistered(same, ctx.registry, path.distribution) && IsFirstSegment(path.distribution, input)
      else if CanOwn(same, ctx.registry, ctx.preferred) then ctx.preferred == Some(path.distribution)
      else CanOwn(same, ctx.registry, ctx.wslDefault) && ctx.wslDefault == Some(path.distribution)
  }

  lemma ResolveOwner(same: SameName, input: string, ctx: Context)
    requires Resolve(same, input, ctx).Ok?
    ensures BelongsTo(same, input, ctx, Resolve(same, input, ctx).value)
  {
    var (segment, _) := Segment(input);
    assert input[..1 + |segment|] == "/" + segment;
  }

  /**
   Who owns a slash input past the alias: a valid root owns all of them; without one, list mode gives `/`
   to the provider and the rest to the distribution the first segment names, and default mode gives
   everything to the pinned distribution, or else to the default one, whatever the first segment says.
   */
  lemma SlashOwner(same: SameName, input: string, snapshot: Snapshot)
    requires !ClaimsDrive(input) && ShellResolve(same, input, snapshot).Ok?
    ensures if ValidRoot(same, snapshot.root).Some? then ShellResolve(same, input, snapshot).value.Folder?
            else BelongsTo(same, input, ContextOf(snapshot), ShellResolve(same, input, snapshot).value)
  {
    if ValidRoot(same, snapshot.root).None? {
      ResolveOwner(same, input, ContextOf(snapshot));
    }
  }

  /** A WSL base is a namespace: whatever the distribution is called, a relative input stays in it. */
  lemma RelativeStaysInDistribution(same: SameName, input: string, context: Context, distribution: string, linuxPath: string)
    ensures var result := RelativeTarget(same, input, Some(context), Some(WslDirectory(distribution, linuxPath)));
            result.Ok? ==>
              && result.value.kind == WslDistribution
              && result.value.wslContext.Some? && result.value.wslContext.value.0 == distribution
              && DistributionBase(distribution) <= result.value.nativePath
  {
    var trimmed := TrimEnd(linuxPath, '/');
    var form := trimmed + ("/" + input);
    if IsValidDistributionName(distribution) && StartsWith(linuxPath, "/") {
      assert trimmed != "" ==> trimmed[0] == linuxPath[0];
      assert form[0] == '/';
      StrictStays(same, distribution, form, context.registry);
    }
  }

  lemma StrictStays(same: SameName, distribution: string, form: string, registry: seq<string>)
    requires IsValidDistributionName(distribution) && form != "" && form[0] == '/'
    ensures var result := Resolve(same, "/" + distribution + form, ListMode(registry));
            result.Ok? ==>
              && result.value.Distribution? && result.value.path.distribution == distribution
              && DistributionBase(distribution) <= result.value.path.uncDisplay
  {
    NameHasNoSeparator(distribution);
    SegmentOfRewrite(distribution, form);
  }

  lemma UriGoesToParser(same: SameName, uri: string, snapshot: Snapshot)
    requires HasFileScheme(uri)
    ensures BrowserResolve(same, uri, snapshot, None) == ResolveFileUri(uri)
  {
    assert uri[..5][0] == uri[0] && Lower(uri[0]) == 'f';
  }

  /** The server every WSL path is below. */
  function Provider(): string {
    "wsl.localhost"
  }

  /** Native paths through the whole entry point: printed and resolved again, the round trip holds as stated. */
  lemma NativeInputsRoundTrip(same: SameName, input: string, snapshot: Snapshot)
    requires IsAbsoluteNative(input) && BrowserResolve(same, input, snapshot, None).Ok?
    ensures var target := BrowserResolve(same, input, snapshot, None).value;
            BrowserResolve(same, FileUriFromNative(target.nativePath), snapshot, None) == UriOutcome(target)
  {
    AbsoluteInputsAreNative(same, input, Some(ContextOf(snapshot)), ValidRoot(same, snapshot.root), None);
    UriRoundTrip(input);
    UriGoesToParser(same, FileUriFromNative(NativeTarget(input).value.nativePath), snapshot);
  }

  lemma ProviderName()
    ensures WSL_ROOT_UNC == "\\\\" + Provider()
    ensures '/' !in Provider() && '\\' !in Provider() && '@' !in Provider() && ':' !in Provider()
    ensures Provider() != "" && !EqualIgnoringCase(Provider(), "localhost")
  {
  }

  lemma ProviderUri()
    ensures HasFileScheme(FileUriFromNative(WSL_ROOT_UNC))
    ensures ResolveFileUri(FileUriFromNative(WSL_ROOT_UNC)) == Err(Rejected(InvalidFileUri))
  {
    ProviderName();
    ServerAlone(Provider());
    assert WSL_ROOT_UNC[2..] == Provider();
  }

  /** A path below the provider parses from its URI as it would as a native path. */
  lemma WslUri(native: string, path: string)
    requires native == WSL_ROOT_UNC + "\\" + path && '/' !in path && path != ""
    ensures HasFileScheme(FileUriFromNative(native))
    ensures ResolveFileUri(FileUriFromNative(native)) == NativeTarget(native)
  {
    ProviderName();
    assert native[2..] == Provider() + "\\" + path && native == "\\\\" + Provider() + "\\" + path;
    ServerAndPath(Provider(), path);
    RemoteRoundTrip(Provider(), path);
  }

  /** The share a distribution's paths are printed under: its name up to a separator. */
  function ShareOf(distribution: string): string {
    distribution[..Find(distribution, '\\')]
  }

  /** A WSL path comes back as a network path without its context, unless no path can hold it. */
  function WslAnswer(native: string, distribution: string): Result<UserTarget, TargetError> {
    if HasControl(native) || ShareOf(distribution) == "" || ':' in ShareOf(distribution) then Err(Rejected(InvalidPath))
    else Ok(UserTarget(NativeUNC, native, None))
  }

  /** What parsing the URI of a target of a slash input gives. */
  function UriAnswer(target: UserTarget): Result<UserTarget, TargetError>
    requires target.kind.WslDistribution? ==> target.wslContext.Some?
  {
    match target.kind
    case NavigationRoot => Err(Rejected(InvalidFileUri))
    case WslDistribution => WslAnswer(target.nativePath, target.wslContext.value.0)
    case _ => UriOutcome(target)
  }

  /**
   The URI of any target of a slash input parses to the same folder or drive as the round trip says, for
   a WSL path to the same path as a network path, and to nothing for the bare provider root.
   */
  lemma EveryTargetUri(same: SameName, input: string, snapshot: Snapshot)
    requires StartsWith(input, "/") && BrowserResolve(same, input, snapshot, None).Ok?
    requires var target := BrowserResolve(same, input, snapshot, None).value;
             target.wslContext.Some? ==> target.wslContext.value.0 != "" && '/' !in target.wslContext.value.0
    ensures var target := BrowserResolve(same, input, snapshot, None).value;
            target.kind.WslDistribution? ==> target.wslContext.Some?
    ensures var target := BrowserResolve(same, input, snapshot, None).value;
            BrowserResolve(same, FileUriFromNative(target.nativePath), snapshot, None) == UriAnswer(target)
  {
    FunnelsAgree(same, input, snapshot, None);
    var shell := ShellResolve(same, input, snapshot);
    var target := BrowserResolve(same, input, snapshot, None).value;
    if shell.value.Distribution? {
      ShellDistribution(same, input, snapshot);
    }
    ResolvedUri(shell.value, target);
    UriGoesToParser(same, FileUriFromNative(target.nativePath), snapshot);
  }

  /** Text below a distribution's share, without the other separator. */
  ghost predicate IsBelow(display: string, distribution: string) {
    exists shown :: display == DistributionBase(distribution) + shown && IsShown(shown)
  }

  predicate IsShown(shown: string) {
    '/' !in shown && (shown != "" ==> shown[0] == '\\')
  }

  lemma BelowUri(display: string, distribution: string)
    requires distribution != "" && '/' !in distribution && IsBelow(display, distribution)
    ensures HasFileScheme(FileUriFromNative(display))
    ensures ResolveFileUri(FileUriFromNative(display)) == WslAnswer(display, distribution)
  {
    var shown :| display == DistributionBase(distribution) + shown && IsShown(shown);
    assert display == WSL_ROOT_UNC + "\\" + (distribution + shown);
    WslUri(display, distribution + shown);
    ProviderName();
    assert '/' !in display;
    WslNative(display, distribution, shown);
  }

  lemma FirstPart(distribution: string, shown: string)
    requires IsShown(shown)
    ensures Split(distribution + shown, '\\')[0] == ShareOf(distribution)
  {
    var path, at := distribution + shown, Find(distribution, '\\');
    assert path[..at] == distribution[..at];
    if at < |path| {
      assert path[at] == '\\';
      FindUnique(path, '\\', at);
    } else {
      assert path == distribution;
    }
  }

  lemma WslNative(native: string, distribution: string, shown: string)
    requires native == WSL_ROOT_UNC + "\\" + (distribution + shown) && '/' !in native && IsShown(shown)
    ensures NativeTarget(native) == WslAnswer(native, distribution)
  {
    var path := distribution + shown;
    ProviderSplit(native, path);
    FirstPart(distribution, shown);
    ProviderShare(native[2..], path, ShareOf(distribution));
    NativeShare(native);
  }

  lemma ProviderShare(rest: string, path: string, share: string)
    requires Split(rest, '\\') == [Provider()] + Split(path, '\\') && Split(path, '\\')[0] == share
    ensures NamesServerAndShare(rest) <==> share != "" && ':' !in share
  {
    ProviderName();
  }

  lemma ProviderSplit(native: string, path: string)
    requires native == WSL_ROOT_UNC + "\\" + path
    ensures StartsWith(native, "\\\\") && !IsDevicePath(native)
    ensures Split(native[2..], '\\') == [Provider()] + Split(path, '\\')
  {
    ProviderName();
    assert native[2..] == Provider() + ['\\'] + path;
    SplitFront(Provider(), '\\', path);
    ServerStarts(native, Provider() + ['\\'] + path);
  }

  lemma ServerStarts(native: string, rest: string)
    requires native == "\\\\" + rest && rest != "" && rest[0] != '?' && rest[0] != '.'
    ensures StartsWith(native, "\\\\") && !IsDevicePath(native)
  {
    assert native[2] == rest[0];
  }

  lemma NativeShare(native: string)
    requires StartsWith(native, "\\\\") && !IsDevicePath(native) && '/' !in native
    ensures NativeTarget(native)
         == if HasControl(native) || !NamesServerAndShare(native[2..]) then Err(Rejected(InvalidPath))
            else Ok(UserTarget(NativeUNC, native, None))
  {
    SwapNone(native, '/', '\\');
  }

  lemma ResolvedUri(resolved: Resolved, target: UserTarget)
    requires TargetOf(resolved) == Ok(target)
    requires resolved.Distribution? ==>
      && resolved.path.distribution != "" && '/' !in resolved.path.distribution
      && IsBelow(resolved.path.uncDisplay, resolved.path.distribution)
    ensures HasFileScheme(FileUriFromNative(target.nativePath))
    ensures ResolveFileUri(FileUriFromNative(target.nativePath)) == UriAnswer(target)
  {
    match resolved
    case WslRoot => ProviderUri();
    case Folder(folder) => UriRoundTrip(folder.display);
    case Distribution(path) => BelowUri(path.uncDisplay, path.distribution);
  }

  lemma ShellDistribution(same: SameName, input: string, snapshot: Snapshot)
    requires StartsWith(input, "/")
    requires ShellResolve(same, input, snapshot).Ok? && ShellResolve(same, input, snapshot).value.Distribution?
    ensures var path := ShellResolve(same, input, snapshot).value.path; IsBelow(path.uncDisplay, path.distribution)
  {
    ClaimIsExact(input);
    if ClaimsDrive(input) {
      MntAgrees(input);
    } else {
      DistributionShown(same, input, ContextOf(snapshot));
    }
  }

  lemma DistributionShown(same: SameName, input: string, ctx: Context)
    requires Resolve(same, input, ctx).Ok? && Resolve(same, input, ctx).value.Distribution?
    ensures var path := Resolve(same, input, ctx).value.path; IsBelow(path.uncDisplay, path.distribution)
  {
    var (segment, restFrom) := Segment(input);
    var explicit := ctx.mode == DistributionList;
    var tail := if explicit then input[restFrom..] else input[1..];
    var had := if explicit then |input| > 1 && EndsWithChar(input, '/') else EndsWithChar(input, '/');
    assert '\\' !in tail;
    TailHasNoSlash(tail, had);
    var stack := Names(tail).value;
    if stack != [] {
      TailFront(stack, '\\');
    }
    var path := Resolve(same, input, ctx).value.path;
    assert path.uncDisplay == DistributionBase(path.distribution) + Shown(Names(tail).value, had, '\\');
  }
}
