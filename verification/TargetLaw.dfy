/**
 What the two entry points make of an input (crates/fsw-path/src/target.rs, crates/fsw-core/src/lib.rs),
 spelled out: native paths, `file:` URIs of any origin, the drive alias, custom roots and relative inputs.
 */
module TargetLaw {
  import opened Results
  import opened Ascii
  import opened DistributionNames
  import opened PercentCoding
  import opened PathText
  import opened PathRender
  import opened PathResolve
  import opened FileTargets
  import opened TargetFunnels
  import opened PathLaw

  predicate IsLetter(c: char) {
    'a' <= c <= 'z' || 'A' <= c <= 'Z'
  }

  /** The text with every `/` a `\`. */
  predicate IsNative(input: string, native: string) {
    |native| == |input| && forall i :: 0 <= i < |input| ==> native[i] == if input[i] == '/' then '\\' else input[i]
  }

  lemma SwapIsNative(input: string, native: string)
    ensures IsNative(input, native) <==> native == Swap(input, '/', '\\')
  {
  }

  /** `\\`, a server, a share, neither empty nor with a colon, and possibly more. */
  predicate IsShare(native: string, server: string, share: string, rest: string) {
    && native == "\\\\" + (server + ("\\" + (share + rest)))
    && server != "" && '\\' !in server && ':' !in server
    && share != "" && '\\' !in share && ':' !in share
    && (rest != "" ==> rest[0] == '\\')
  }

  ghost predicate NamesAShare(native: string) {
    exists server, share, rest :: IsShare(native, server, share, rest)
  }

  predicate NamesADrive(native: string) {
    |native| >= 3 && IsLetter(native[0]) && native[1] == ':' && native[2] == '\\'
  }

  /** `\\?\`, `\\.\` or `\??\` in front. */
  predicate IsDeviceText(input: string) {
    && |input| >= 4 && input[0] == '\\' && input[3] == '\\'
    && ((input[1] == '\\' && (input[2] == '?' || input[2] == '.')) || (input[1] == '?' && input[2] == '?'))
  }

  predicate HasLow(input: string) {
    exists i :: 0 <= i < |input| && (input[i] as int) < 0x20
  }

  lemma DeviceIsDevice(input: string)
    ensures IsDevicePath(input) <==> IsDeviceText(input)
  {
    assert "\\\\?\\" == ['\\', '\\', '?', '\\'] && "\\\\.\\" == ['\\', '\\', '.', '\\'] && "\\??\\" == ['\\', '?', '?', '\\'];
  }

  lemma FirstOfShare(share: string, rest: string)
    requires '\\' !in share && (rest != "" ==> rest[0] == '\\')
    ensures Split(share + rest, '\\')[0] == share
  {
    if rest != "" {
      FindUnique(share + rest, '\\', |share|);
      assert (share + rest)[..|share|] == share;
    } else {
      assert share + rest == share;
    }
  }

  lemma ShareIsNamed(native: string, server: string, share: string, rest: string)
    requires IsShare(native, server, share, rest)
    ensures StartsWith(native, "\\\\") && NamesServerAndShare(native[2..])
  {
    assert native[2..] == server + ['\\'] + (share + rest);
    SplitFront(server, '\\', share + rest);
    FirstOfShare(share, rest);
  }

  lemma NamedIsShare(native: string)
    requires StartsWith(native, "\\\\") && NamesServerAndShare(native[2..])
    ensures NamesAShare(native)
  {
    var text := native[2..];
    var at := Find(text, '\\');
    PathText.CutAt(text, at);
    ShareCut(native, text[..at], text[at + 1..]);
  }

  lemma ShareCut(native: string, server: string, tail: string)
    requires native == "\\\\" + (server + ['\\'] + tail) && NamesServerAndShare(native[2..]) && '\\' !in server
    ensures NamesAShare(native)
  {
    assert native[2..] == server + ['\\'] + tail;
    SplitFront(server, '\\', tail);
    ShareOfTail(native, server, tail, Split(tail, '\\')[0], Find(tail, '\\'));
  }

  lemma ShareOfTail(native: string, server: string, tail: string, share: string, end: nat)
    requires native == "\\\\" + (server + ['\\'] + tail) && server != "" && '\\' !in server && ':' !in server
    requires end == Find(tail, '\\') && share == Split(tail, '\\')[0] && share != "" && ':' !in share
    ensures NamesAShare(native)
  {
    assert share == tail[..end] && tail == share + tail[end..];
    ShareSpelled(native, server, share, tail[end..], tail);
    assert IsShare(native, server, share, tail[end..]);
  }

  lemma ShareSpelled(native: string, server: string, share: string, rest: string, tail: string)
    requires native == "\\\\" + (server + ['\\'] + tail) && tail == share + rest
    ensures native == "\\\\" + (server + ("\\" + (share + rest)))
  {
  }

  lemma NormalizedIsExact(input: string, native: string)
    requires IsNative(input, native)
    ensures Normalized(input)
         == if NamesAShare(native) then Some(native)
            else if NamesADrive(native) then Some(Capital(native))
            else None
  {
    SwapIsNative(input, native);
    if StartsWith(native, "\\\\") && NamesServerAndShare(native[2..]) {
      NamedIsShare(native);
    }
    if NamesAShare(native) {
      var server, share, rest :| IsShare(native, server, share, rest);
      ShareIsNamed(native, server, share, rest);
    }
  }

  /** The text with its first letter raised. */
  function Capital(native: string): string
    requires native != ""
  {
    [if 'a' <= native[0] <= 'z' then (native[0] as int - 0x20) as char else native[0]] + native[1..]
  }

  /** Every native path: accepted exactly as a share or a drive path without control characters. */
  lemma NativeIsExact(input: string, native: string)
    requires IsNative(input, native)
    ensures NativeTarget(input)
         == if HasLow(input) then Err(Rejected(InvalidPath))
            else if IsDeviceText(input) then Err(Rejected(DevicePath))
            else if NamesAShare(native) then Ok(UserTarget(NativeUNC, native, None))
            else if NamesADrive(native) then Ok(UserTarget(LocalDrive, Capital(native), None))
            else Err(Rejected(InvalidPath))
  {
    NormalizedIsExact(input, native);
    DeviceIsDevice(input);
    assert HasControl(input) <==> HasLow(input);
    if NamesADrive(native) && !NamesAShare(native) {
      assert Capital(native)[1] == ':';
    }
  }

  /** Below an accepted native base: the base, one separator, and the input as a native text. */
  function Joined(base: string, added: string): string {
    (if base != "" && base[|base| - 1] == '\\' then base else base + "\\") + added
  }

  lemma JoinedShare(base: string, added: string)
    requires NamesAShare(base)
    ensures NamesAShare(Joined(base, added))
  {
    var server, share, rest :| IsShare(base, server, share, rest);
    var ends := base[|base| - 1] == '\\';
    LastOfShare(base, server, share, rest);
    var more := if ends then rest + added else rest + "\\" + added;
    JoinedParts(base, server, share, rest, added, more);
    assert IsShare(Joined(base, added), server, share, more);
  }

  lemma LastOfShare(base: string, server: string, share: string, rest: string)
    requires IsShare(base, server, share, rest)
    ensures base != "" && (rest == "" ==> base[|base| - 1] != '\\')
  {
    if rest == "" {
      assert base[|base| - 1] == share[|share| - 1];
    }
  }

  lemma JoinedParts(base: string, server: string, share: string, rest: string, added: string, more: string)
    requires IsShare(base, server, share, rest)
    requires more == if base[|base| - 1] == '\\' then rest + added else rest + "\\" + added
    ensures Joined(base, added) == "\\\\" + (server + ("\\" + (share + more)))
  {
  }

  /** A relative input below an accepted native base is the base and the input, if that may be a path at all. */
  lemma RelativeNativeIsExact(same: SameName, input: string, added: string, context: Option<Context>, path: string,
                              base: string)
    requires NativeTarget(path).Ok? && base == NativeTarget(path).value.nativePath && IsNative(input, added)
    requires '\0' !in input && !IsDeviceText(input)
    ensures RelativeTarget(same, input, context, Some(NativePath(path)))
         == if HasLow(input) then Err(Rejected(InvalidPath))
            else if IsDeviceText(Joined(base, added)) then Err(Rejected(DevicePath))
            else Ok(UserTarget(NativeTarget(path).value.kind, Joined(base, added), None))
  {
    SwapIsNative(input, added);
    DeviceIsDevice(input);
    AcceptedShape(path);
    JoinedNative(base, input, added);
  }

  lemma JoinedNative(base: string, input: string, added: string)
    requires '/' !in base && !HasControl(base) && Normalized(base) == Some(base) && IsNative(input, added)
    ensures NativeTarget(Joined(base, added))
         == if HasLow(input) then Err(Rejected(InvalidPath))
            else if IsDeviceText(Joined(base, added)) then Err(Rejected(DevicePath))
            else Ok(UserTarget(if StartsWith(base, "\\\\") then NativeUNC else LocalDrive, Joined(base, added), None))
  {
    var joined := Joined(base, added);
    JoinedControls(base, input, added);
    NativeIsExact(joined, joined);
    NormalizedIsExact(base, base);
    BaseShape(base);
    if NamesAShare(base) {
      JoinedShare(base, added);
    } else {
      JoinedDrive(base, joined);
    }
  }

  /** An accepted text is a share exactly if it starts like one. */
  lemma BaseShape(base: string)
    requires NamesAShare(base) || NamesADrive(base)
    ensures NamesAShare(base) <==> StartsWith(base, "\\\\")
  {
  }

  lemma JoinedDrive(base: string, joined: string)
    requires NamesADrive(base) && base == Capital(base) && base <= joined
    ensures NamesADrive(joined) && !NamesAShare(joined) && Capital(joined) == joined
  {
    assert Capital(base)[0] == base[0];
    assert joined == [joined[0]] + joined[1..];
  }

  lemma JoinedControls(base: string, input: string, added: string)
    requires '/' !in base && !HasControl(base) && IsNative(input, added)
    ensures IsNative(Joined(base, added), Joined(base, added))
    ensures HasLow(Joined(base, added)) <==> HasLow(input)
    ensures IsNative(base, base) && base <= Joined(base, added)
  {
    var joined := Joined(base, added);
    var front := joined[..|joined| - |added|];
    assert joined == front + added && forall i :: 0 <= i < |front| ==> front[i] != '/' && (front[i] as int) >= 0x20;
    if HasLow(input) {
      var i :| 0 <= i < |input| && (input[i] as int) < 0x20;
      assert joined[|front| + i] == added[i] == input[i];
    }
  }

  /** A distribution name: no separator, colon or control character, and not `.` or `..`. */
  predicate IsName(name: string) {
    && name != "" && name != "." && name != ".."
    && forall i :: 0 <= i < |name| ==> (name[i] as int) >= 0x20 && name[i] != '\\' && name[i] != '/' && name[i] != ':'
  }

  lemma NameIsValid(name: string)
    ensures IsValidDistributionName(name) <==> IsName(name)
  {
    forall i | 0 <= i < |name|
      ensures IsForbiddenChar(name[i])
         <==> !((name[i] as int) >= 0x20 && name[i] != '\\' && name[i] != '/' && name[i] != ':')
    {
    }
  }

  /** Relative inputs that are refused before they are resolved, and those that lack something. */
  lemma RelativeRefusals(same: SameName, input: string, context: Option<Context>, distribution: string, linuxPath: string,
                         path: string)
    ensures RelativeTarget(same, input, context, None) == Err(NeedsContext)
    ensures '\0' in input || IsDeviceText(input) ==>
      && RelativeTarget(same, input, context, Some(NativePath(path))) == Err(Rejected(InvalidPath))
      && RelativeTarget(same, input, context, Some(WslDirectory(distribution, linuxPath))) == Err(Rejected(InvalidPath))
    ensures !('\0' in input || IsDeviceText(input)) && NativeTarget(path).Err? ==>
      RelativeTarget(same, input, context, Some(NativePath(path))) == NativeTarget(path)
    ensures !IsName(distribution) || linuxPath == "" || linuxPath[0] != '/' || '\\' in linuxPath ==>
      RelativeTarget(same, input, context, Some(WslDirectory(distribution, linuxPath))) == Err(Rejected(InvalidPath))
    ensures !('\0' in input || IsDeviceText(input)) && context.None?
            && IsName(distribution) && linuxPath != "" && linuxPath[0] == '/' && '\\' !in linuxPath ==>
      RelativeTarget(same, input, context, Some(WslDirectory(distribution, linuxPath))) == Err(NeedsContext)
  {
    DeviceIsDevice(input);
    NameIsValid(distribution);
  }

  lemma TailSplits(trimmed: string, input: string)
    requires trimmed != "" ==> trimmed[0] == '/'
    ensures (trimmed + ("/" + input))[0] == '/'
    ensures Split((trimmed + ("/" + input))[1..], '/')
         == (if trimmed == "" then [] else Split(trimmed[1..], '/')) + Split(input, '/')
  {
    if trimmed == "" {
      assert (trimmed + ("/" + input))[1..] == input;
    } else {
      assert (trimmed + ("/" + input))[1..] == trimmed[1..] + ['/'] + input;
      SplitAppend(trimmed[1..], '/', input, trimmed[1..] + ['/'] + input);
    }
  }

  /** A relative input below a WSL directory: the directory's components and then the input's, strictly resolved. */
  lemma RelativeWslIsExact(same: SameName, input: string, context: Context, distribution: string, linuxPath: string,
                           trimmed: string)
    requires IsValidDistributionName(distribution) && linuxPath != "" && linuxPath[0] == '/'
    requires '\\' !in linuxPath && '\0' !in linuxPath && '\\' !in input && '\0' !in input
    requires trimmed <= linuxPath && !EndsWithChar(trimmed, '/') && forall i :: |trimmed| <= i < |linuxPath| ==> linuxPath[i] == '/'
    ensures RelativeTarget(same, input, Some(context), Some(WslDirectory(distribution, linuxPath)))
         == if IsUsable(same, context.registry, Some(distribution))
            then TargetOfResult(InDistribution(
                   distribution, (if trimmed == "" then [] else Split(trimmed[1..], '/')) + Split(input, '/'),
                   input == "" || input[|input| - 1] == '/'))
            else Err(Rejected(SlashPath(UnregisteredDistribution)))
  {
    var rest := trimmed + ("/" + input);
    OneTrim(linuxPath, '/', trimmed);
    DeviceIsDevice(input);
    RelativeIsStrict(same, input, context, distribution, linuxPath, "/" + distribution + rest);
    assert trimmed != "" ==> trimmed[0] == linuxPath[0];
    TailSplits(trimmed, input);
    assert rest[|rest| - 1] == if input == "" then '/' else input[|input| - 1];
    BelowDistribution(same, distribution, rest, "/" + distribution + rest, context.registry);
  }

  lemma RelativeIsStrict(same: SameName, input: string, context: Context, distribution: string, linuxPath: string, full: string)
    requires IsValidDistributionName(distribution) && linuxPath != "" && linuxPath[0] == '/' && '\\' !in linuxPath
    requires '\0' !in input && !IsDevicePath(input) && full == "/" + distribution + (TrimEnd(linuxPath, '/') + ("/" + input))
    ensures RelativeTarget(same, input, Some(context), Some(WslDirectory(distribution, linuxPath)))
         == TargetOfResult(Resolve(same, full, ListMode(context.registry)))
  {
  }

  lemma BelowDistribution(same: SameName, distribution: string, rest: string, full: string, registry: seq<string>)
    requires IsValidDistributionName(distribution) && full == "/" + distribution + rest
    requires rest != "" && rest[0] == '/' && '\\' !in rest && '\0' !in rest
    ensures Resolve(same, full, ListMode(registry))
         == if IsUsable(same, registry, Some(distribution))
            then InDistribution(distribution, Split(rest[1..], '/'), rest[|rest| - 1] == '/')
            else Err(UnregisteredDistribution)
  {
    NameHasNoSeparator(distribution);
    FormIsWell(distribution, rest);
    StrictIsExact(same, full, distribution, rest, ListMode(registry));
    assert full[1] == distribution[0];
  }

  lemma FormIsWell(distribution: string, rest: string)
    requires distribution != "" && '/' !in distribution && '\\' !in distribution && '\0' !in distribution
    requires '\\' !in rest && '\0' !in rest
    ensures IsWellFormed("/" + distribution + rest)
  {
    assert ("/" + distribution + rest)[1] == distribution[0];
  }

  /** The drive alias: `/mnt/`, a letter, and nothing or a `/`. */
  predicate IsAlias(input: string) {
    && |input| >= 6 && input[0] == '/' && input[1] == 'm' && input[2] == 'n' && input[3] == 't' && input[4] == '/'
    && IsLetter(input[5]) && (|input| > 6 ==> input[6] == '/')
  }

  lemma AliasIsClaimed(input: string)
    ensures ClaimsDrive(input) <==> IsAlias(input)
  {
    assert "/mnt/" == ['/', 'm', 'n', 't', '/'];
  }

  /** What follows the letter, as the input of the drive's root. */
  function BehindLetter(input: string): string
    requires |input| >= 6
  {
    if |input| == 6 then "/" else input[6..]
  }

  /** The alias opens the drive and what follows the letter below it; malformed text after it is refused. */
  lemma AliasIsExact(same: SameName, input: string, snapshot: Snapshot, rest: string)
    requires IsAlias(input) && rest == BehindLetter(input)
    ensures ShellResolve(same, input, snapshot)
         == if '\0' in input then Err(EmbeddedNul)
            else if '\\' in input then Err(BackslashNotAllowed)
            else if |rest| > 1 && rest[1] == '/' then Err(DoubleLeadingSlash)
            else AsFolder(InFolder([Capital(input[5..])[0], ':'], Split(rest[1..], '/'), rest[|rest| - 1] == '/'))
  {
    AliasIsClaimed(input);
    var drive := Capital(input[5..])[0];
    AliasOpens(input, rest, [drive] + ":\\");
    if '\0' !in input && '\\' !in input {
      BelowDrive(rest, drive);
    }
  }

  lemma AliasOpens(input: string, rest: string, root: string)
    requires IsAlias(input) && ClaimsDrive(input) && rest == BehindLetter(input) && root == [Capital(input[5..])[0]] + ":\\"
    ensures '\0' in input ==> MntDrive(input) == Err(EmbeddedNul)
    ensures '\0' !in input && '\\' in input ==> MntDrive(input) == Err(BackslashNotAllowed)
    ensures '\0' !in input && '\\' !in input ==>
      '\0' !in rest && '\\' !in rest
      && MntDrive(input)
         == match UnderRoot(rest, root) { case Err(error) => Err(error) case Ok(folder) => Ok(Some(Folder(folder))) }
  {
    assert [Upper(input[5])] + ":\\" == root;
  }

  lemma BelowDrive(rest: string, drive: char)
    requires rest != "" && rest[0] == '/' && '\0' !in rest && '\\' !in rest
    ensures UnderRoot(rest, [drive] + ":\\")
         == if |rest| > 1 && rest[1] == '/' then Err(DoubleLeadingSlash)
            else InFolder([drive, ':'], Split(rest[1..], '/'), rest[|rest| - 1] == '/')
  {
    if !(|rest| > 1 && rest[1] == '/') {
      UnderRootIsExact(rest, [drive] + ":\\", [drive, ':'], rest[|rest| - 1] == '/');
    }
  }

  /** Without a context only the alias and the malformed inputs are answered. */
  lemma SlashWithoutContext(same: SameName, input: string, customRoot: Option<string>, base: Option<TargetBase>)
    requires input != "" && input[0] == '/' && !IsAlias(input)
    ensures ResolveTarget(same, input, None, customRoot, base)
         == if IsWellFormed(input) then Err(NeedsContext)
            else Err(Rejected(SlashPath(if |input| > 1 && input[1] == '/' then DoubleLeadingSlash
                                        else if '\0' in input then EmbeddedNul
                                        else BackslashNotAllowed)))
  {
    SlashInputsAreNotUris(same, input, None, customRoot, base);
    AliasIsClaimed(input);
    ClaimIsExact(input);
  }

  /** Every other slash input goes below a valid custom root if there is one, else to the resolver. */
  lemma ShellIsExact(same: SameName, input: string, snapshot: Snapshot)
    requires !IsAlias(input)
    ensures ShellResolve(same, input, snapshot)
         == if input == "" || input[0] != '/' then Err(NotASlashPath)
            else if snapshot.root.Some? && IsValidWindowsRoot(same, snapshot.root.value)
            then AsFolder(UnderRoot(input, snapshot.root.value))
            else Resolve(same, input, Context(snapshot.distributions, snapshot.mode, snapshot.pinned, snapshot.defaultDistribution))
  {
    AliasIsClaimed(input);
  }

  /** `%2F` or `%5C`, the hexadecimal digits in either case. */
  predicate HasEscapedSeparator(path: string) {
    exists i {:trigger path[i]} :: 0 <= i && i + 2 < |path| && path[i] == '%'
      && ((path[i + 1] == '2' && path[i + 2] in "fF") || (path[i + 1] == '5' && path[i + 2] in "cC"))
  }

  lemma EscapedIsEncoded(path: string)
    ensures HasEscapedSeparator(path) <==> HasEncodedSeparator(path)
  {
    if HasEscapedSeparator(path) {
      var i :| 0 <= i && i + 2 < |path| && path[i] == '%'
        && ((path[i + 1] == '2' && path[i + 2] in "fF") || (path[i + 1] == '5' && path[i + 2] in "cC"));
      assert EncodedSeparatorAt(path, i);
    }
    if HasEncodedSeparator(path) {
      var i :| 0 <= i <= |path| - 3 && EncodedSeparatorAt(path, i);
      assert path[i] == '%';
    }
  }

  predicate IsFileScheme(text: string) {
    |text| == 5 && text[0] in "fF" && text[1] in "iI" && text[2] in "lL" && text[3] in "eE" && text[4] == ':'
  }

  lemma SchemeIsFile(text: string)
    requires |text| == 5
    ensures EqualIgnoringCase(text, "file:") <==> IsFileScheme(text)
  {
    assert "file:" == ['f', 'i', 'l', 'e', ':'];
    if EqualIgnoringCase(text, "file:") {
      assert forall i :: 0 <= i < 5 ==> Lower(text[i]) == Lower("file:"[i]);
    }
  }

  /** A decoded path as a native text: without its leading slashes, and the others turned. */
  function Behind(path: string): string {
    Swap(TrimStart(path, '/'), '/', '\\')
  }

  /**
   A `file:` URI with an authority, whoever wrote it: each way it is refused, in order, and the native
   path it otherwise means. A separator that only percent-encoding spells is refused.
   */
  lemma UriIsExact(uri: string, scheme: string, authority: string, path: string)
    requires IsFileScheme(scheme) && '/' !in authority && (path != "" ==> path[0] == '/')
    requires uri == scheme + ("//" + (authority + path))
    ensures HasFileScheme(uri)
    ensures ResolveFileUri(uri)
         == if '?' in authority || '#' in authority || '?' in path || '#' in path then Err(Rejected(InvalidFileUri))
            else if Decoded(authority).None? then Err(Rejected(InvalidPercentEncoding))
            else if HasEscapedSeparator(path) then Err(Rejected(InvalidFileUri))
            else if Decoded(path).None? then Err(Rejected(InvalidPercentEncoding))
            else AtAuthority(Decoded(authority).value, Decoded(path).value)
  {
    SchemeIsFile(scheme);
    UriParts(uri, scheme, "//" + (authority + path));
    QueryOf(authority, path, "//" + (authority + path));
    AuthorityOf(authority, path);
    AuthorityIsExact(authority + path, authority, path);
  }

  lemma AuthorityIsExact(text: string, authority: string, path: string)
    requires Find(text, '/') == |authority| <= |text| && text[..|authority|] == authority && text[|authority|..] == path
    ensures AfterSlashes(text)
         == if Decoded(authority).None? then Err(Rejected(InvalidPercentEncoding))
            else if HasEscapedSeparator(path) then Err(Rejected(InvalidFileUri))
            else if Decoded(path).None? then Err(Rejected(InvalidPercentEncoding))
            else AtAuthority(Decoded(authority).value, Decoded(path).value)
  {
    EscapedIsEncoded(path);
    if Decoded(authority).Some? && Decoded(path).Some? {
      LocatedIsExact(Decoded(authority).value, Decoded(path).value);
    }
  }

  lemma LocatedIsExact(authority: string, path: string)
    ensures Located(authority, path) == AtAuthority(authority, path)
  {
    assert '/' in authority || '\\' in authority || '@' in authority || ':' in authority
      <==> exists i :: 0 <= i < |authority| && authority[i] in "/\\@:";
  }

  /** Where a decoded authority and path lie. */
  function AtAuthority(authority: string, path: string): Result<UserTarget, TargetError> {
    if authority == "" || EqualIgnoringCase(authority, "localhost") then NativeTarget(Behind(path))
    else if path == "" || exists i :: 0 <= i < |authority| && authority[i] in "/\\@:" then Err(Rejected(InvalidFileUri))
    else NativeTarget("\\\\" + authority + Swap(path, '/', '\\'))
  }

  lemma UriParts(uri: string, scheme: string, rest: string)
    requires |scheme| == 5 && uri == scheme + rest
    ensures |uri| >= 5 && uri[..5] == scheme && uri[5..] == rest
  {
  }

  lemma QueryOf(authority: string, path: string, rest: string)
    requires rest == "//" + (authority + path)
    ensures ('?' in rest || '#' in rest) <==> '?' in authority || '#' in authority || '?' in path || '#' in path
    ensures StartsWith(rest, "//") && rest[2..] == authority + path
  {
  }

  lemma AuthorityOf(authority: string, path: string)
    requires '/' !in authority && (path != "" ==> path[0] == '/')
    ensures Find(authority + path, '/') == |authority|
    ensures (authority + path)[..|authority|] == authority && (authority + path)[|authority|..] == path
  {
    if path != "" {
      FindUnique(authority + path, '/', |authority|);
    } else {
      assert authority + path == authority;
    }
  }

  /** And one without: only an absolute path means something. */
  lemma PlainUriIsExact(uri: string, scheme: string, path: string)
    requires IsFileScheme(scheme) && uri == scheme + path && !StartsWith(path, "//")
    ensures HasFileScheme(uri)
    ensures ResolveFileUri(uri)
         == if '?' in path || '#' in path || HasEscapedSeparator(path) then Err(Rejected(InvalidFileUri))
            else if Decoded(path).None? then Err(Rejected(InvalidPercentEncoding))
            else if Decoded(path).value == "" || Decoded(path).value[0] != '/' then Err(NeedsContext)
            else NativeTarget(Behind(Decoded(path).value))
  {
    SchemeIsFile(scheme);
    UriParts(uri, scheme, path);
    EscapedIsEncoded(path);
  }

  /** A scheme of at least two characters. */
  predicate IsSchemeChar(c: char, first: bool) {
    IsLetter(c) || '0' <= c <= '9' || c == '+' || c == '-' || c == '.' || (c == '_' && !first)
  }

  ghost predicate HasScheme(input: string) {
    exists k :: 2 <= k < |input| && input[k] == ':' && forall i :: 0 <= i < k ==> IsSchemeChar(input[i], i == 0)
  }

  lemma SchemeIsOther(input: string)
    ensures HasOtherScheme(input) <==> HasScheme(input)
  {
    var colon := Find(input, ':');
    if HasScheme(input) {
      var k :| 2 <= k < |input| && input[k] == ':' && forall i :: 0 <= i < k ==> IsSchemeChar(input[i], i == 0);
      assert ':' !in input[..k];
      FindUnique(input, ':', k);
    }
    if HasOtherScheme(input) {
      forall i | 0 <= i < colon ensures IsSchemeChar(input[i], i == 0) {
        assert input[i] in "+-." ==> input[i] == '+' || input[i] == '-' || input[i] == '.';
      }
    }
  }

  lemma NativeIsHandled(input: string)
    ensures NativeTarget(input) != Err(NotHandled)
  {
  }

  lemma LocatedIsHandled(authority: string, path: string)
    ensures Located(authority, path) != Err(NotHandled)
  {
  }

  lemma AuthorityIsHandled(text: string)
    ensures AfterSlashes(text) != Err(NotHandled)
  {
    var at := Find(text, '/');
    if Decoded(text[..at]).Some? && Decoded(text[at..]).Some? {
      LocatedIsHandled(Decoded(text[..at]).value, Decoded(text[at..]).value);
    }
  }

  lemma PlainIsHandled(text: string)
    ensures WithoutAuthority(text) != Err(NotHandled)
  {
  }

  lemma UriIsHandled(input: string)
    requires HasFileScheme(input)
    ensures ResolveFileUri(input) != Err(NotHandled)
  {
    PlainIsHandled(input[5..]);
    if StartsWith(input[5..], "//") {
      AuthorityIsHandled(input[7..]);
      assert input[5..][2..] == input[7..];
    }
  }

  lemma AliasIsHandled(input: string)
    ensures MntTarget(input) != Err(NotHandled)
  {
  }

  lemma SlashIsHandled(same: SameName, input: string, context: Option<Context>, customRoot: Option<string>)
    requires StartsWith(input, "/")
    ensures SlashTarget(same, input, context, customRoot) != Err(NotHandled)
  {
    AliasIsHandled(input);
  }

  lemma RelativeIsHandled(same: SameName, input: string, context: Option<Context>, base: Option<TargetBase>)
    ensures RelativeTarget(same, input, context, base) != Err(NotHandled)
  {
  }

  /** What is left to others: another scheme, or text a shell expands. */
  lemma NotHandledIsExact(same: SameName, input: string, context: Option<Context>, customRoot: Option<string>,
                          base: Option<TargetBase>)
    ensures ResolveTarget(same, input, context, customRoot, base) == Err(NotHandled)
       <==> && input != "" && !IsDeviceText(input) && !(|input| >= 5 && IsFileScheme(input[..5]))
            && (HasScheme(input) || input[0] == '%' || input[0] == '$' || input[0] == '~')
  {
    SchemeIsOther(input);
    DeviceIsDevice(input);
    if |input| >= 5 {
      SchemeIsFile(input[..5]);
    }
    if HasFileScheme(input) {
      UriIsHandled(input);
    } else if IsAbsoluteNative(input) {
      NativeIsHandled(input);
    } else if StartsWith(input, "/") {
      SlashIsHandled(same, input, context, customRoot);
    } else {
      RelativeIsHandled(same, input, context, base);
    }
  }

  /** `\\`, or a letter, a colon and a separator. */
  predicate IsAbsolute(input: string) {
    || (|input| >= 2 && input[0] == '\\' && input[1] == '\\')
    || (|input| >= 3 && IsLetter(input[0]) && input[1] == ':' && (input[2] == '\\' || input[2] == '/'))
  }

  lemma AbsoluteIsAbsolute(input: string)
    ensures IsAbsoluteNative(input) <==> IsAbsolute(input)
  {
    assert "\\\\" == ['\\', '\\'];
  }

  /** What is looked at first: nothing, a device path, a `file:` URI. */
  lemma FirstChecks(same: SameName, input: string, context: Option<Context>, customRoot: Option<string>, base: Option<TargetBase>)
    ensures input == "" ==> ResolveTarget(same, input, context, customRoot, base) == Err(Rejected(InvalidPath))
    ensures IsDeviceText(input) ==> ResolveTarget(same, input, context, customRoot, base) == Err(Rejected(DevicePath))
    ensures |input| >= 5 && IsFileScheme(input[..5]) ==>
      HasFileScheme(input) && ResolveTarget(same, input, context, customRoot, base) == ResolveFileUri(input)
  {
    DeviceIsDevice(input);
    if |input| >= 5 {
      SchemeIsFile(input[..5]);
      assert input[..5][0] == input[0];
    }
  }

  /** An absolute text is a native path, whatever else it looks like, and what is nothing else is relative. */
  lemma OthersAreNativeOrRelative(same: SameName, input: string, context: Option<Context>, customRoot: Option<string>,
                                  base: Option<TargetBase>)
    requires input != "" && !IsDeviceText(input)
    ensures IsAbsolute(input) ==> ResolveTarget(same, input, context, customRoot, base) == NativeTarget(input)
    ensures !IsAbsolute(input) && input[0] != '/' && !(|input| >= 5 && IsFileScheme(input[..5])) && !HasScheme(input)
            && input[0] != '%' && input[0] != '$' && input[0] != '~' ==>
      ResolveTarget(same, input, context, customRoot, base) == RelativeTarget(same, input, context, base)
  {
    AbsoluteIsAbsolute(input);
    SchemeIsOther(input);
    DeviceIsDevice(input);
    if |input| >= 5 {
      SchemeIsFile(input[..5]);
    }
    if IsAbsolute(input) {
      AbsoluteInputsAreNative(same, input, context, customRoot, base);
    }
  }

  /** A component Win32 keeps as it is. */
  predicate IsStable(component: string) {
    component == "" || (component[|component| - 1] != '.' && component[|component| - 1] != ' ')
  }

  /** A server and something behind it. */
  predicate IsUncRoot(root: string, server: string, rest: string) {
    root == "\\\\" + (server + ("\\" + rest)) && server != "" && '\\' !in server && rest != "" && rest[0] != '\\'
  }

  predicate IsDriveRoot(root: string) {
    |root| >= 2 && IsLetter(root[0]) && root[1] == ':' && (|root| > 2 ==> root[2] == '\\')
  }

  lemma UncIsNamed(root: string, server: string, rest: string)
    requires IsUncRoot(root, server, rest)
    ensures |root| >= 2 && StartsWith(root, "\\\\") && NamesShare(root)
  {
    assert root[2..] == server + ['\\'] + rest;
    FindUnique(root[2..], '\\', |server|);
    assert root[2 + |server| + 1..] == rest;
  }

  lemma Ungrouped(root: string, text: string, server: string, rest: string)
    requires root == "\\\\" + text && text == server + ['\\'] + rest
    ensures root == "\\\\" + (server + ("\\" + rest))
  {
  }

  lemma NotAtOnce(rest: string)
    requires Find(rest, '\\') > 0
    ensures rest != "" && rest[0] != '\\'
  {
  }

  lemma Rests(root: string, text: string, at: nat, rest: string)
    requires |root| >= 2 && text == root[2..] && at < |text| && rest == text[at + 1..]
    ensures root[2 + at + 1..] == rest
  {
  }

  lemma StartAgain(root: string, text: string)
    requires StartsWith(root, "\\\\") && text == root[2..]
    ensures root == "\\\\" + text
  {
  }

  lemma UncOf(root: string, text: string, server: string, rest: string)
    requires root == "\\\\" + text && text == server + ['\\'] + rest
    requires server != "" && '\\' !in server && rest != "" && rest[0] != '\\'
    ensures IsUnc(root)
  {
    Ungrouped(root, text, server, rest);
    assert IsUncRoot(root, server, rest);
  }

  lemma NamedIsUnc(root: string, text: string, at: nat, server: string, rest: string)
    requires |root| >= 2 && text == root[2..] && StartsWith(root, "\\\\") && NamesShare(root)
    requires at == Find(text, '\\') < |text| && server == text[..at] && rest == text[at + 1..]
    ensures IsUnc(root)
  {
    StartAgain(root, text);
    PathText.CutAt(text, at);
    Rests(root, text, at, rest);
    NotAtOnce(rest);
    UncOf(root, text, server, rest);
  }

  ghost predicate IsUnc(root: string) {
    exists server, rest :: IsUncRoot(root, server, rest)
  }

  lemma UncNames(root: string)
    requires IsUnc(root)
    ensures |root| >= 2 && StartsWith(root, "\\\\") && NamesShare(root)
  {
    var server, rest :| IsUncRoot(root, server, rest);
    UncIsNamed(root, server, rest);
  }

  /** No stream separator, wildcard or control character from the third character on. */
  predicate IsPlain(root: string) {
    forall i :: 2 <= i < |root| ==> root[i] !in ":\"<>|*?" && (root[i] as int) >= 0x20
  }

  lemma PlainIsPlain(root: string)
    ensures PlainFrom(root, 2) <==> IsPlain(root)
  {
    forall i | 2 <= i < |root|
      ensures root[i] !in ":\"<>|*?" && (root[i] as int) >= 0x20 <==> root[i] != ':' && !IsForbiddenInRoot(root[i])
    {
    }
  }

  predicate AreStable(parts: seq<string>) {
    forall part :: part in parts ==> IsStable(part)
  }

  lemma StableIsStable(trimmed: string)
    ensures StableComponents(trimmed) <==> AreStable(Split(trimmed, '\\'))
  {
    forall part | part in Split(trimmed, '\\')
      ensures IsStable(part)
         <==> part == "" || (part != "." && part != ".." && !EndsWithChar(part, '.') && !EndsWithChar(part, ' '))
    {
    }
  }

  /** The custom roots that are taken: exactly these. */
  lemma RootIsExact(same: SameName, root: string, trimmed: string)
    requires trimmed <= root && !EndsWithChar(trimmed, '\\') && forall i :: |trimmed| <= i < |root| ==> root[i] == '\\'
    ensures IsValidWindowsRoot(same, root)
       <==> && '/' !in root && '\0' !in root && IsPlain(root) && !IsDeviceText(root)
            && !same(trimmed, "\\\\wsl.localhost") && AreStable(Split(trimmed, '\\'))
            && (IsDriveRoot(root) || IsUnc(root))
  {
    OneTrim(root, '\\', trimmed);
    DeviceIsDevice(root);
    PlainIsPlain(root);
    StableIsStable(trimmed);
    if |root| >= 2 && StartsWith(root, "\\\\") && NamesShare(root) {
      var at := Find(root[2..], '\\');
      NamedIsUnc(root, root[2..], at, root[2..][..at], root[2..][at + 1..]);
    }
    if IsUnc(root) {
      UncNames(root);
    }
  }

  /** Percent-encoded text: URI characters alone, and it decodes to the text. */
  predicate IsEscaped(escaped: string, text: string) {
    (forall i :: 0 <= i < |escaped| ==> IsUriChar(escaped[i])) && Decoded(escaped) == Some(text)
  }

  lemma EncodedIsEscaped(text: string)
    ensures IsEscaped(EncodeText(text), text)
  {
    UriChars(text);
    DecodeEncoded(text);
  }

  /** The URI of a path without a server: three slashes and the path, its separators turned. */
  lemma DriveUriIs(native: string) returns (escaped: string)
    requires !StartsWith(native, "\\\\")
    ensures FileUriFromNative(native) == "file:///" + escaped && IsEscaped(escaped, Swap(native, '\\', '/'))
  {
    escaped := EncodeText(Swap(native, '\\', '/'));
    EncodedIsEscaped(Swap(native, '\\', '/'));
  }

  /** The URI of a share: the server as its authority, and the rest as its path. */
  lemma ShareUriIs(native: string, server: string, rest: string) returns (authority: string, path: string)
    requires native == "\\\\" + (server + rest) && '\\' !in server && (rest != "" ==> rest[0] == '\\')
    ensures FileUriFromNative(native) == "file://" + authority + if |rest| > 1 then "/" + path else ""
    ensures IsEscaped(authority, server) && (|rest| > 1 ==> IsEscaped(path, Swap(rest[1..], '\\', '/')))
  {
    var after := if rest == "" then "" else rest[1..];
    authority, path := EncodeText(server), EncodeText(Swap(after, '\\', '/'));
    EncodedIsEscaped(server);
    EncodedIsEscaped(Swap(after, '\\', '/'));
    ShareText(native, server, rest);
    UriChars(Swap(after, '\\', '/'));
  }

  lemma ShareText(native: string, server: string, rest: string)
    requires native == "\\\\" + (server + rest) && '\\' !in server && (rest != "" ==> rest[0] == '\\')
    ensures native[2..] == server + rest && Find(native[2..], '\\') == |server| && native[2..][..|server|] == server
    ensures rest != "" ==> native[2..][|server| + 1..] == rest[1..]
  {
    if rest != "" {
      FindUnique(native[2..], '\\', |server|);
    }
  }
}
