/**
 Native targets and their `file:` URIs (crates/fsw-path/src/target.rs; RFC 3986, and appendix E.3 of
 RFC 8089 for shares): which native paths are accepted, how they print, and what comes back.
 */
module FileTargets {
  import opened Results
  import opened Ascii
  import opened Utf8Text
  import opened PercentCoding
  import opened PathText
  import opened PathRender

  datatype TargetKind = LocalDrive | WslDistribution | NativeUNC | NavigationRoot

  datatype TargetRejection =
    | InvalidPath
    | InvalidFileUri
    | InvalidPercentEncoding
    | DevicePath
    | SlashPath(error: ResolveError)

  datatype TargetError =
    | NotHandled
    | NeedsContext
    | Rejected(rejection: TargetRejection)

  datatype UserTarget = UserTarget(kind: TargetKind, nativePath: string, wslContext: Option<(string, string)>)

  predicate IsDevicePath(input: string) {
    StartsWith(input, "\\\\?\\") || StartsWith(input, "\\\\.\\") || StartsWith(input, "\\??\\")
  }

  predicate HasControl(text: string) {
    exists i :: 0 <= i < |text| && IsControl(text[i])
  }

  predicate IsDrivePath(native: string) {
    |native| >= 3 && IsAlphabetic(native[0]) && native[1] == ':' && native[2] == '\\'
  }

  /** The server and share of the text after `\\`; missing ones are empty. */
  function ServerAndShare(rest: string): (string, string) {
    var parts := Split(rest, '\\');
    (parts[0], if |parts| > 1 then parts[1] else "")
  }

  predicate NamesServerAndShare(rest: string) {
    var (server, share) := ServerAndShare(rest);
    server != "" && share != "" && ':' !in server && ':' !in share
  }

  /** What normalize_native_path accepts, and the text it gives. */
  function Normalized(input: string): Option<string> {
    var native := Swap(input, '/', '\\');
    if StartsWith(native, "\\\\") then
      if NamesServerAndShare(native[2..]) then Some(native) else None
    else if IsDrivePath(native) then Some([Upper(native[0])] + native[1..])
    else None
  }

  /** normalize_native_path. */
  method NormalizeNativePath(input: string) returns (result: Result<string, TargetError>)
    ensures result == match Normalized(input) { case Some(native) => Ok(native) case None => Err(Rejected(InvalidPath)) }
  {
    var native := Swap(input, '/', '\\');
    if StartsWith(native, "\\\\") {
      var (server, share) := ServerAndShare(native[2..]);
      if server == "" || share == "" || ':' in server || ':' in share {
        return Err(Rejected(InvalidPath));
      }
      EmptyServer(native);
      if StartsWith(native, "\\\\\\\\") {
        return Err(Rejected(InvalidPath));
      }
      return Ok(native);
    }
    if !(|native| >= 3 && IsAlphabetic(native[0]) && native[1] == ':' && native[2] == '\\') {
      return Err(Rejected(InvalidPath));
    }
    assert native[0 := Upper(native[0])] == [Upper(native[0])] + native[1..];
    native := native[0 := Upper(native[0])];
    return Ok(native);
  }

  /** A third separator means an empty server, so the check for four can never be the one that rejects. */
  lemma EmptyServer(native: string)
    requires StartsWith(native, "\\\\") && ServerAndShare(native[2..]).0 != ""
    ensures !StartsWith(native, "\\\\\\\\")
  {
  }

  /** native_target, without a context. */
  function NativeTarget(input: string): Result<UserTarget, TargetError> {
    if HasControl(input) then Err(Rejected(InvalidPath))
    else if IsDevicePath(input) then Err(Rejected(DevicePath))
    else
      match Normalized(input)
      case None => Err(Rejected(InvalidPath))
      case Some(native) => Ok(UserTarget(if StartsWith(native, "\\\\") then NativeUNC else LocalDrive, native, None))
  }

  function TrimStart(text: string, c: char): string {
    if text != "" && text[0] == c then TrimStart(text[1..], c) else text
  }

  function EncodeText(text: string): string {
    EncodeBytes(Encode(text))
  }

  /** The URI of what follows a share's leading separators. */
  function ShareUri(rest: string): string {
    var at := Find(rest, '\\');
    var path := EncodeText(Swap(if at < |rest| then rest[at + 1..] else "", '\\', '/'));
    "file://" + EncodeText(rest[..at]) + if path == "" then "" else "/" + path
  }

  /** file_uri_from_native. */
  function FileUriFromNative(native: string): string {
    if StartsWith(native, "\\\\") then ShareUri(native[2..])
    else "file:///" + EncodeText(Swap(native, '\\', '/'))
  }

  predicate HasFileScheme(input: string) {
    |input| >= 5 && EqualIgnoringCase(input[..5], "file:")
  }

  /** The target of a decoded authority and path. */
  function Located(authority: string, path: string): Result<UserTarget, TargetError> {
    if authority == "" || EqualIgnoringCase(authority, "localhost") then
      NativeTarget(Swap(TrimStart(path, '/'), '/', '\\'))
    else if '/' in authority || '\\' in authority || '@' in authority || ':' in authority || path == "" then
      Err(Rejected(InvalidFileUri))
    else
      NativeTarget("\\\\" + authority + Swap(path, '/', '\\'))
  }

  /** A URI from its authority on. */
  function AfterSlashes(text: string): Result<UserTarget, TargetError> {
    var at := Find(text, '/');
    match Decoded(text[..at])
    case None => Err(Rejected(InvalidPercentEncoding))
    case Some(authority) =>
      if HasEncodedSeparator(text[at..]) then Err(Rejected(InvalidFileUri))
      else
        match Decoded(text[at..])
        case None => Err(Rejected(InvalidPercentEncoding))
        case Some(path) => Located(authority, path)
  }

  /** A URI without an authority: its path must be absolute. */
  function WithoutAuthority(text: string): Result<UserTarget, TargetError> {
    if HasEncodedSeparator(text) then Err(Rejected(InvalidFileUri))
    else
      match Decoded(text)
      case None => Err(Rejected(InvalidPercentEncoding))
      case Some(path) =>
        if StartsWith(path, "/") then NativeTarget(Swap(TrimStart(path, '/'), '/', '\\')) else Err(NeedsContext)
  }

  function AfterScheme(rest: string): Result<UserTarget, TargetError> {
    if '?' in rest || '#' in rest then Err(Rejected(InvalidFileUri))
    else if StartsWith(rest, "//") then AfterSlashes(rest[2..])
    else WithoutAuthority(rest)
  }

  /** resolve_file_uri. */
  function ResolveFileUri(input: string): Result<UserTarget, TargetError>
    requires HasFileScheme(input)
  {
    AfterScheme(input[5..])
  }

  /** The server of a share path. */
  function ServerOf(native: string): string
    requires StartsWith(native, "\\\\")
  {
    native[2..][..Find(native[2..], '\\')]
  }

  /** What parsing the printed URI of an accepted native path gives. */
  function UriOutcome(target: UserTarget): Result<UserTarget, TargetError> {
    if !StartsWith(target.nativePath, "\\\\") then Ok(target)
    else if EqualIgnoringCase(ServerOf(target.nativePath), "localhost") then Err(Rejected(InvalidPath))
    else if '@' in ServerOf(target.nativePath) then Err(Rejected(InvalidFileUri))
    else if ServerOf(target.nativePath) == "?" || ServerOf(target.nativePath) == "." then Err(Rejected(DevicePath))
    else Ok(target)
  }

  /** A leading `/` is written as it is. */
  lemma EncodeSlash(text: string)
    ensures EncodeText("/" + text) == "/" + EncodeText(text)
  {
  }

  lemma UriChars(text: string)
    ensures forall i :: 0 <= i < |EncodeText(text)| ==> IsUriChar(EncodeText(text)[i])
    ensures '/' !in text ==> '/' !in EncodeText(text)
    ensures text != "" ==> EncodeText(text) != ""
  {
    EncodedChars(Encode(text));
    if '/' !in text {
      AsciiBytes(text, '/');
    }
  }

  /** No text without a backslash prints with an encoded separator. */
  lemma PrintsNoSeparator(text: string)
    requires '\\' !in text
    ensures !HasEncodedSeparator(EncodeText(text))
  {
    AsciiBytes(text, '\\');
    forall i | 0 <= i <= |EncodeText(text)| - 3 ensures !EncodedSeparatorAt(EncodeText(text), i) {
      NoEncodedSeparator(Encode(text), i);
    }
  }

  /** The URI of an authority and an absolute path. */
  function BuiltUri(authority: string, path: string): string {
    "file:" + ("//" + (EncodeText(authority) + EncodeText("/" + path)))
  }

  lemma BuiltHasNoQuery(authority: string, path: string)
    ensures '?' !in EncodeText(authority) + EncodeText(path) && '#' !in EncodeText(authority) + EncodeText(path)
  {
    UriChars(authority);
    UriChars(path);
  }

  lemma ParseText(authority: string, path: string)
    requires '/' !in authority && '\\' !in path
    ensures AfterSlashes(EncodeText(authority) + EncodeText("/" + path)) == Located(authority, "/" + path)
  {
    var front := EncodeText(authority);
    var back := EncodeText("/" + path);
    UriChars(authority);
    EncodeSlash(path);
    CutAt(front, back);
    DecodeEncoded(authority);
    DecodeEncoded("/" + path);
    PrintsNoSeparator("/" + path);
    ParseParts(front + back, front, back, authority, "/" + path);
  }

  /** Parsing what was built gives the authority and the path back, before they are looked at. */
  lemma ParseBuilt(authority: string, path: string)
    requires '/' !in authority && '\\' !in path
    ensures HasFileScheme(BuiltUri(authority, path))
    ensures ResolveFileUri(BuiltUri(authority, path)) == Located(authority, "/" + path)
  {
    var text := EncodeText(authority) + EncodeText("/" + path);
    BuiltHasNoQuery(authority, "/" + path);
    SchemeAhead(BuiltUri(authority, path), text);
    SlashesAhead("//" + text, text);
    ParseText(authority, path);
  }

  lemma ParseParts(text: string, front: string, back: string, authority: string, path: string)
    requires Find(text, '/') == |front| && text[..|front|] == front && text[|front|..] == back
    requires Decoded(front) == Some(authority) && Decoded(back) == Some(path) && !HasEncodedSeparator(back)
    ensures AfterSlashes(text) == Located(authority, path)
  {
  }

  lemma SchemeAhead(uri: string, text: string)
    requires uri == "file:" + ("//" + text)
    ensures HasFileScheme(uri) && uri[5..] == "//" + text
  {
  }

  lemma SlashesAhead(rest: string, text: string)
    requires rest == "//" + text && '?' !in text && '#' !in text
    ensures AfterScheme(rest) == AfterSlashes(text)
  {
  }

  lemma CutAt(front: string, back: string)
    requires '/' !in front && back != "" && back[0] == '/'
    ensures Find(front + back, '/') == |front|
    ensures (front + back)[..|front|] == front && (front + back)[|front|..] == back
  {
  }

  /** Swapping separators there and back. */
  lemma SwapBack(text: string)
    requires '/' !in text
    ensures Swap(Swap(text, '\\', '/'), '/', '\\') == text
    ensures '\\' !in Swap(text, '\\', '/')
  {
  }

  /** What an accepted path looks like. */
  lemma AcceptedShape(input: string)
    requires NativeTarget(input).Ok?
    ensures var native := NativeTarget(input).value.nativePath;
            && '/' !in native && !HasControl(native) && Normalized(native) == Some(native)
  {
    var native := NativeTarget(input).value.nativePath;
    var swapped := Swap(input, '/', '\\');
    forall i | 0 <= i < |native| ensures native[i] != '/' && !IsControl(native[i]) {
      assert !IsControl(input[i]);
      assert native[i] == swapped[i] || (i == 0 && native[i] == Upper(swapped[0]));
    }
    SwapNone(native, '/', '\\');
  }

  /** The printed prefix in the two forms it is written. */
  lemma Slashes(front: string, back: string)
    ensures "file:" + ("//" + (front + ("/" + back))) == "file://" + front + ("/" + back)
  {
  }

  lemma DrivePrinted(path: string)
    ensures BuiltUri("", path) == "file:///" + EncodeText(path)
  {
  }

  lemma DriveLocated(native: string)
    requires IsDrivePath(native) && '/' !in native && !HasControl(native) && Normalized(native) == Some(native)
    ensures Located("", "/" + Swap(native, '\\', '/')) == Ok(UserTarget(LocalDrive, native, None))
  {
    var path := Swap(native, '\\', '/');
    SwapBack(native);
    assert path[0] == native[0];
    OneSlash(path);
    DriveStays(native);
  }

  lemma OneSlash(path: string)
    requires path != "" && path[0] != '/'
    ensures TrimStart("/" + path, '/') == path
  {
    assert ("/" + path)[1..] == path;
  }

  lemma DriveStays(native: string)
    requires IsDrivePath(native) && !HasControl(native) && Normalized(native) == Some(native)
    ensures NativeTarget(native) == Ok(UserTarget(LocalDrive, native, None))
  {
    assert native[1] == ':';
  }

  /** Drive paths always come back. */
  lemma DriveRoundTrip(native: string)
    requires IsDrivePath(native) && '/' !in native && !HasControl(native) && Normalized(native) == Some(native)
    ensures HasFileScheme(FileUriFromNative(native))
    ensures ResolveFileUri(FileUriFromNative(native)) == Ok(UserTarget(LocalDrive, native, None))
  {
    var path := Swap(native, '\\', '/');
    SwapBack(native);
    DrivePrinted(path);
    ParseBuilt("", path);
    DriveLocated(native);
  }

  lemma ShareStart(path: string, share: nat)
    requires share == Find(path, '\\') && share > 0 && ':' !in path[..share]
    ensures path != "" && path[0] != '\\' && !(|path| >= 2 && path[1] == ':')
  {
  }

  lemma ServerAndShareOf(rest: string, server: string, path: string)
    requires '\\' !in server && rest == server + ['\\'] + path
    ensures ServerAndShare(rest) == (server, path[..Find(path, '\\')])
  {
    SplitFront(server, '\\', path);
    assert Split(path, '\\')[0] == path[..Find(path, '\\')];
  }

  /** The share path as server and path. */
  lemma ShareParts(rest: string, server: string, path: string)
    requires NamesServerAndShare(rest) && '/' !in rest
    requires '\\' !in server && rest == server + ['\\'] + path
    ensures server != "" && '/' !in server && ':' !in server
    ensures path != "" && path[0] != '\\' && !(|path| >= 2 && path[1] == ':')
  {
    ServerAndShareOf(rest, server, path);
    ShareStart(path, Find(path, '\\'));
    forall i | 0 <= i < |server| ensures server[i] != '/' {
      assert server[i] == rest[i];
    }
  }

  /** The URI of a share. */
  lemma SharePrinted(rest: string, server: string, path: string)
    requires rest == server + "\\" + path && '\\' !in server && path != ""
    ensures ShareUri(rest) == BuiltUri(server, Swap(path, '\\', '/'))
  {
    var slashed := Swap(path, '\\', '/');
    assert rest[|server|] == '\\' && rest[..|server|] == server;
    FindUnique(rest, '\\', |server|);
    assert rest[|server| + 1..] == path;
    UriChars(slashed);
    EncodeSlash(slashed);
    Slashes(EncodeText(server), EncodeText(slashed));
  }

  /** A share of the local host parses as a path without a drive. */
  lemma LocalRoundTrip(path: string)
    requires '/' !in path && !HasControl(path)
    requires path != "" && path[0] != '\\' && !(|path| >= 2 && path[1] == ':')
    ensures NativeTarget(Swap(TrimStart("/" + Swap(path, '\\', '/'), '/'), '/', '\\')) == Err(Rejected(InvalidPath))
  {
  }

  lemma RemoteRoundTrip(server: string, path: string)
    requires '/' !in path
    ensures "\\\\" + server + Swap("/" + Swap(path, '\\', '/'), '/', '\\') == "\\\\" + server + "\\" + path
  {
  }

  lemma ShareRoundTrip(native: string, server: string, path: string)
    requires StartsWith(native, "\\\\") && '/' !in path && !HasControl(native) && !HasControl(path)
    requires Normalized(native) == Some(native)
    requires native == "\\\\" + server + "\\" + path
    requires server == ServerOf(native)
    requires server != "" && '\\' !in server && '/' !in server && ':' !in server
    requires path != "" && path[0] != '\\' && !(|path| >= 2 && path[1] == ':')
    ensures Located(server, "/" + Swap(path, '\\', '/')) == UriOutcome(UserTarget(NativeUNC, native, None))
  {
    if EqualIgnoringCase(server, "localhost") {
      LocalRoundTrip(path);
    } else {
      RemoteRoundTrip(server, path);
      DeviceServer(native, server, path);
    }
  }

  lemma DeviceServer(native: string, server: string, path: string)
    requires native == "\\\\" + server + "\\" + path && '\\' !in server && server != ""
    ensures IsDevicePath(native) <==> server == "?" || server == "."
  {
    assert native[1] == '\\' && native[2] == server[0];
    if |server| == 1 {
      assert native[3] == '\\';
    } else {
      assert native[3] == server[1] && server[1] in server;
    }
  }

  lemma UncRoundTrip(native: string)
    requires StartsWith(native, "\\\\") && '/' !in native && !HasControl(native) && Normalized(native) == Some(native)
    ensures HasFileScheme(FileUriFromNative(native))
    ensures ResolveFileUri(FileUriFromNative(native)) == UriOutcome(UserTarget(NativeUNC, native, None))
  {
    var rest := native[2..];
    var server := ServerOf(native);
    SwapNone(native, '/', '\\');
    OneServer(rest, server);
    assert rest == server + ['\\'] + rest[1 + |server|..];
    var path := rest[1 + |server|..];
    ShareParts(rest, server, path);
    SharePrinted(rest, server, path);
    PathOfShare(native, server, path);
    SwapBack(path);
    ParseBuilt(server, Swap(path, '\\', '/'));
    ShareRoundTrip(native, server, path);
  }

  /** The URI of a server without a path. */
  lemma ServerAlone(server: string)
    requires '/' !in server && '\\' !in server
    ensures HasFileScheme(ShareUri(server)) && ResolveFileUri(ShareUri(server)) == Located(server, "")
  {
    var text := EncodeText(server);
    assert server[..|server|] == server && Swap("", '\\', '/') == "" && EncodeText("") == "";
    assert ShareUri(server) == "file:" + ("//" + text) by {
      assert "file://" + text + "" == "file:" + ("//" + text);
    }
    UriChars(server);
    SchemeAhead(ShareUri(server), text);
    SlashesAhead("//" + text, text);
    DecodeEncoded(server);
    assert text[..|text|] == text && text[|text|..] == "" && Decoded("") == Some("");
    ParseParts(text, text, "", server, "");
  }

  /** The URI of a server and a path below it. */
  lemma ServerAndPath(server: string, path: string)
    requires '/' !in server && '\\' !in server && '/' !in path && path != ""
    ensures HasFileScheme(ShareUri(server + "\\" + path))
    ensures ResolveFileUri(ShareUri(server + "\\" + path)) == Located(server, "/" + Swap(path, '\\', '/'))
  {
    SharePrinted(server + "\\" + path, server, path);
    SwapBack(path);
    ParseBuilt(server, Swap(path, '\\', '/'));
  }

  lemma OneServer(rest: string, server: string)
    requires NamesServerAndShare(rest) && server == rest[..Find(rest, '\\')]
    ensures |rest| >= 1 + |server|
  {
  }

  lemma PathOfShare(native: string, server: string, path: string)
    requires StartsWith(native, "\\\\") && '/' !in native && !HasControl(native)
    requires native[2..] == server + "\\" + path
    ensures native == "\\\\" + server + "\\" + path
    ensures '/' !in path && !HasControl(path)
  {
    assert native == "\\\\" + native[2..];
    forall i | 0 <= i < |path| ensures path[i] != '/' && !IsControl(path[i]) {
      assert path[i] == native[3 + |server| + i];
    }
  }

  /**
   For every path native_target accepts, exactly what parsing its printed URI gives: the same target,
   unless a share's server is `localhost`, holds `@`, or spells a device prefix.
   */
  lemma UriRoundTrip(input: string)
    requires NativeTarget(input).Ok?
    ensures var target := NativeTarget(input).value;
            && HasFileScheme(FileUriFromNative(target.nativePath))
            && ResolveFileUri(FileUriFromNative(target.nativePath)) == UriOutcome(target)
  {
    var native := NativeTarget(input).value.nativePath;
    AcceptedShape(input);
    if StartsWith(native, "\\\\") {
      UncRoundTrip(native);
    } else {
      SwapNone(native, '/', '\\');
      DriveRoundTrip(native);
    }
  }

  predicate IsPlainServer(server: string) {
    server != "" && '\\' !in server && '/' !in server && ':' !in server && !HasControl(server)
  }

  /** Each excluded server is reached: its share is accepted, and its URI does not come back. */
  lemma ServersThatDoNotReturn(server: string)
    requires IsPlainServer(server)
    requires EqualIgnoringCase(server, "localhost") || '@' in server || server == "?" || server == "."
    ensures NativeTarget("\\\\" + server + "/share").Ok?
    ensures UriOutcome(NativeTarget("\\\\" + server + "/share").value).Err?
  {
    AcceptsShare(server);
  }

  /** `file:` URIs of a share with a user part are refused. */
  lemma UserPartDoesNotReturn()
    ensures NativeTarget("\\\\" + "me@host" + "/share").Ok?
    ensures UriOutcome(NativeTarget("\\\\" + "me@host" + "/share").value) == Err(Rejected(InvalidFileUri))
  {
    AcceptsShare("me@host");
    assert "me@host"[2] == '@';
  }

  lemma PlainInput(server: string)
    requires IsPlainServer(server)
    ensures !IsDevicePath("\\\\" + server + "/share") && !HasControl("\\\\" + server + "/share")
  {
    var input := "\\\\" + server + "/share";
    assert input[2] == server[0] && input[1] == '\\';
    assert if |server| == 1 then input[3] == '/' else input[3] == server[1] && server[1] in server;
    forall i | 0 <= i < |input| ensures !IsControl(input[i]) {
      assert 2 <= i < 2 + |server| ==> input[i] == server[i - 2];
    }
  }

  lemma AcceptsShare(server: string)
    requires IsPlainServer(server)
    ensures var native := "\\\\" + server + "\\share";
            && NativeTarget("\\\\" + server + "/share") == Ok(UserTarget(NativeUNC, native, None))
            && ServerOf(native) == server
  {
    PlainInput(server);
    SwappedShare(server);
    CutShare("\\\\" + server + "\\share", server);
    AcceptsSwapped("\\\\" + server + "/share");
  }

  lemma AcceptsSwapped(input: string)
    requires !HasControl(input) && !IsDevicePath(input) && StartsWith(Swap(input, '/', '\\'), "\\\\")
    requires NamesServerAndShare(Swap(input, '/', '\\')[2..])
    ensures NativeTarget(input) == Ok(UserTarget(NativeUNC, Swap(input, '/', '\\'), None))
  {
  }

  lemma SwappedShare(server: string)
    requires '/' !in server
    ensures Swap("\\\\" + server + "/share", '/', '\\') == "\\\\" + server + "\\share"
  {
  }

  lemma CutShare(native: string, server: string)
    requires '\\' !in server && native == "\\\\" + server + "\\share"
    ensures ServerOf(native) == server && ServerAndShare(native[2..]) == (server, "share")
  {
    var rest := native[2..];
    assert rest == server + ['\\'] + "share";
    assert rest[|server|] == '\\' && rest[..|server|] == server;
    FindUnique(rest, '\\', |server|);
    ServerAndShareOf(rest, server, "share");
    assert "share"[..Find("share", '\\')] == "share";
  }
}
