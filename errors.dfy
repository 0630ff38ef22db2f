/** The closed error taxonomy: the error codes, the classifier from platform
    errors to codes, the one-line wire format `FragmenterError(<Name>): <message>`,
    its parser, and the fixed set of codes after which no retry may happen. */
module Errors {
  import opened Wrappers
  import opened Text

  /** The enumeration, in declaration order; `Null` is the unused `null` member. */
  datatype ErrorCode =
    | Null
    | PermissionError
    | ResourceBusy
    | NoSpaceOnDrive
    | MaxModuleRetries
    | FileNotFound
    | DirectoryNotEmpty
    | NotADirectory
    | ModuleJsonInvalid
    | ModuleCrcMismatch
    | UserAborted
    | NetworkError
    | CorruptedZipFile
    | Unknown

  /** `FragmenterErrorCode[code]`: the member's name. */
  function CodeName(c: ErrorCode): string {
    match c
    case Null => "null"
    case PermissionError => "PermissionError"
    case ResourceBusy => "ResourceBusy"
    case NoSpaceOnDrive => "NoSpaceOnDrive"
    case MaxModuleRetries => "MaxModuleRetries"
    case FileNotFound => "FileNotFound"
    case DirectoryNotEmpty => "DirectoryNotEmpty"
    case NotADirectory => "NotADirectory"
    case ModuleJsonInvalid => "ModuleJsonInvalid"
    case ModuleCrcMismatch => "ModuleCrcMismatch"
    case UserAborted => "UserAborted"
    case NetworkError => "NetworkError"
    case CorruptedZipFile => "CorruptedZipFile"
    case Unknown => "Unknown"
  }

  /** `FragmenterErrorCode[s]` when it is a number: the member named `s`. Any
      other key, a numeric one included (the reverse mapping then gives a
      name, not a number), yields None. */
  function CodeOfName(s: string): (r: Option<ErrorCode>)
    ensures r.Some? ==> CodeName(r.value) == s
  {
    if s == "null" then Some(Null)
    else if s == "PermissionError" then Some(PermissionError)
    else if s == "ResourceBusy" then Some(ResourceBusy)
    else if s == "NoSpaceOnDrive" then Some(NoSpaceOnDrive)
    else if s == "MaxModuleRetries" then Some(MaxModuleRetries)
    else if s == "FileNotFound" then Some(FileNotFound)
    else if s == "DirectoryNotEmpty" then Some(DirectoryNotEmpty)
    else if s == "NotADirectory" then Some(NotADirectory)
    else if s == "ModuleJsonInvalid" then Some(ModuleJsonInvalid)
    else if s == "ModuleCrcMismatch" then Some(ModuleCrcMismatch)
    else if s == "UserAborted" then Some(UserAborted)
    else if s == "NetworkError" then Some(NetworkError)
    else if s == "CorruptedZipFile" then Some(CorruptedZipFile)
    else if s == "Unknown" then Some(Unknown)
    else None
  }

  /** Name and reverse lookup are inverse to each other. */
  lemma CodeOfNameOfCode(c: ErrorCode)
    ensures CodeOfName(CodeName(c)) == Some(c)
  {
    match c {
      case Null => NullLooksUp();
      case PermissionError => PermissionErrorLooksUp();
      case ResourceBusy => ResourceBusyLooksUp();
      case NoSpaceOnDrive => NoSpaceOnDriveLooksUp();
      case MaxModuleRetries => MaxModuleRetriesLooksUp();
      case FileNotFound => FileNotFoundLooksUp();
      case DirectoryNotEmpty => DirectoryNotEmptyLooksUp();
      case NotADirectory => NotADirectoryLooksUp();
      case ModuleJsonInvalid => ModuleJsonInvalidLooksUp();
      case ModuleCrcMismatch => ModuleCrcMismatchLooksUp();
      case UserAborted => UserAbortedLooksUp();
      case NetworkError => NetworkErrorLooksUp();
      case CorruptedZipFile => CorruptedZipFileLooksUp();
      case Unknown => UnknownLooksUp();
    }
  }

  lemma NullLooksUp()
    ensures CodeOfName(CodeName(Null)) == Some(Null)
  {
  }

  lemma PermissionErrorLooksUp()
    ensures CodeOfName(CodeName(PermissionError)) == Some(PermissionError)
  {
  }

  lemma ResourceBusyLooksUp()
    ensures CodeOfName(CodeName(ResourceBusy)) == Some(ResourceBusy)
  {
  }

  lemma NoSpaceOnDriveLooksUp()
    ensures CodeOfName(CodeName(NoSpaceOnDrive)) == Some(NoSpaceOnDrive)
  {
  }

  lemma MaxModuleRetriesLooksUp()
    ensures CodeOfName(CodeName(MaxModuleRetries)) == Some(MaxModuleRetries)
  {
  }

  lemma FileNotFoundLooksUp()
    ensures CodeOfName(CodeName(FileNotFound)) == Some(FileNotFound)
  {
  }

  lemma DirectoryNotEmptyLooksUp()
    ensures CodeOfName(CodeName(DirectoryNotEmpty)) == Some(DirectoryNotEmpty)
  {
  }

  lemma NotADirectoryLooksUp()
    ensures CodeOfName(CodeName(NotADirectory)) == Some(NotADirectory)
  {
  }

  lemma ModuleJsonInvalidLooksUp()
    ensures CodeOfName(CodeName(ModuleJsonInvalid)) == Some(ModuleJsonInvalid)
  {
  }

  lemma ModuleCrcMismatchLooksUp()
    ensures CodeOfName(CodeName(ModuleCrcMismatch)) == Some(ModuleCrcMismatch)
  {
  }

  lemma UserAbortedLooksUp()
    ensures CodeOfName(CodeName(UserAborted)) == Some(UserAborted)
  {
  }

  lemma NetworkErrorLooksUp()
    ensures CodeOfName(CodeName(NetworkError)) == Some(NetworkError)
  {
  }

  lemma CorruptedZipFileLooksUp()
    ensures CodeOfName(CodeName(CorruptedZipFile)) == Some(CorruptedZipFile)
  {
  }

  lemma UnknownLooksUp()
    ensures CodeOfName(CodeName(Unknown)) == Some(Unknown)
  {
  }

  /** A numeric key such as `3` is not a member name, so the lookup refuses it. */
  lemma NumericNameRefused(n: nat)
    ensures CodeOfName(Decimal(n)) == None
  {
    var s := Decimal(n);
    assert IsDigit(s[0]);
    NamesStartWithLetter();
  }

  lemma NamesStartWithLetter()
    ensures forall c :: !IsDigit(CodeName(c)[0])
  {
  }

  /** A platform error as the classifier sees it: its message and its
      optional `code` property (absent, `null` or `undefined` are all None). */
  datatype Cause = Cause(message: string, code: Option<string>)

  /** A FragmenterError: its code, its formatted message and the error it wraps. */
  datatype FragmenterError = FragmenterError(code: ErrorCode, message: string, fromError: Option<Cause>)

  // ---------------------------------------------------------------------------
  // Character classes of JavaScript regular expressions and String.prototype.trim

  /** JavaScript line terminators: what `.` does not match. */
  predicate IsLineTerminator(c: char) {
    c == '\n' || c == '\r' || c == '\U{2028}' || c == '\U{2029}'
  }

  /** JavaScript white space and line terminators: what `\s` matches and `trim` strips. */
  predicate IsWhitespace(c: char) {
    || c == '\t' || c == '\U{000B}' || c == '\U{000C}' || c == ' '
    || c == '\U{00A0}' || c == '\U{1680}' || ('\U{2000}' <= c <= '\U{200A}')
    || c == '\U{202F}' || c == '\U{205F}' || c == '\U{3000}' || c == '\U{FEFF}'
    || IsLineTerminator(c)
  }

  /** What `\w` matches: ASCII letters, digits and the underscore. */
  predicate IsWordChar(c: char) {
    ('a' <= c <= 'z') || ('A' <= c <= 'Z') || ('0' <= c <= '9') || c == '_'
  }

  /** Where the run of white space starting at `i` ends. */
  function WhitespaceRunEnd(s: string, i: nat): (j: nat)
    requires i <= |s|
    ensures i <= j <= |s|
    ensures forall k :: i <= k < j ==> IsWhitespace(s[k])
    ensures j == |s| || !IsWhitespace(s[j])
    decreases |s| - i
  {
    if i < |s| && IsWhitespace(s[i]) then WhitespaceRunEnd(s, i + 1) else i
  }

  /** Where the run of white space ending at `j` starts. */
  function WhitespaceRunStart(s: string, j: nat): (i: nat)
    requires j <= |s|
    ensures i <= j
    ensures forall k :: i <= k < j ==> IsWhitespace(s[k])
    ensures i == 0 || !IsWhitespace(s[i - 1])
  {
    if 0 < j && IsWhitespace(s[j - 1]) then WhitespaceRunStart(s, j - 1) else j
  }

  /** `s.trimStart()`: drops the leading white space, and only that. */
  function TrimStart(s: string): (r: string)
    ensures |r| <= |s| && r == s[|s| - |r|..]
    ensures r == [] || !IsWhitespace(r[0])
    ensures forall i :: 0 <= i < |s| - |r| ==> IsWhitespace(s[i])
  {
    s[WhitespaceRunEnd(s, 0)..]
  }

  /** `s.trimEnd()`: drops the trailing white space, and only that. */
  function TrimEnd(s: string): (r: string)
    ensures |r| <= |s| && r == s[..|r|]
    ensures r == [] || !IsWhitespace(r[|r| - 1])
    ensures forall i :: |r| <= i < |s| ==> IsWhitespace(s[i])
  {
    s[..WhitespaceRunStart(s, |s|)]
  }

  /** `s.trim()`. */
  function Trim(s: string): string {
    TrimStart(TrimEnd(s))
  }

  // ---------------------------------------------------------------------------
  // Classification of platform errors

  /** The two truncated-archive signatures. The second is written in three
      pieces, which spell the same text and keep its characters within the
      verifier's reach. */
  const UnexpectedEof: string := "unexpected EOF"
  const NoCentralDirectory: string := "end of central " + "directory record " + "signature not found"
  const CorruptedZipMessages: seq<string> := [UnexpectedEof, NoCentralDirectory]

  /** The key the classifier switches on: `e.code ?? e.message`. */
  function ClassificationKey(e: Cause): string {
    match e.code
    case Some(k) => k
    case None => e.message
  }

  /** The switch over platform error keys. */
  function CodeForKey(key: string): (r: ErrorCode)
    ensures r == PermissionError <==> key == "EACCES" || key == "EPERM"
    ensures r == ResourceBusy <==> key == "EBUSY"
    ensures r == NoSpaceOnDrive <==> key == "ENOSPC"
    ensures r == DirectoryNotEmpty <==> key == "ENOTEMPTY"
    ensures r == FileNotFound <==> key == "ENOENT"
    ensures r == NotADirectory <==> key == "ENOTDIR"
    ensures r == NetworkError <==> key == "ECONNRESET" || key == "ENOTFOUND"
    ensures r == Unknown <==>
      key !in {"EACCES", "EPERM", "EBUSY", "ENOSPC", "ENOTEMPTY", "ENOENT", "ENOTDIR", "ECONNRESET", "ENOTFOUND"}
  {
    if key == "EACCES" || key == "EPERM" then PermissionError
    else if key == "EBUSY" then ResourceBusy
    else if key == "ENOSPC" then NoSpaceOnDrive
    else if key == "ENOTEMPTY" then DirectoryNotEmpty
    else if key == "ENOENT" then FileNotFound
    else if key == "ENOTDIR" then NotADirectory
    else if key == "ECONNRESET" || key == "ENOTFOUND" then NetworkError
    else Unknown
  }

  /** `interpretNodeException`: a truncated-archive message wins over every
      platform key; otherwise the key decides, and an unknown key is Unknown. */
  function Classify(e: Cause): (r: ErrorCode)
    ensures r != Null
    ensures r == CorruptedZipFile <==> Trim(e.message) in CorruptedZipMessages
    ensures Trim(e.message) !in CorruptedZipMessages ==> r == CodeForKey(ClassificationKey(e))
    ensures r !in {MaxModuleRetries, ModuleJsonInvalid, ModuleCrcMismatch, UserAborted}
  {
    if Trim(e.message) in CorruptedZipMessages then CorruptedZipFile
    else CodeForKey(ClassificationKey(e))
  }

  /** Two causes carrying the same platform code classify alike, whatever
      their messages, unless a message is a truncated-archive signature. */
  lemma ClassifyByCode(a: Cause, b: Cause)
    requires a.code.Some? && a.code == b.code
    requires Trim(a.message) !in CorruptedZipMessages && Trim(b.message) !in CorruptedZipMessages
    ensures Classify(a) == Classify(b)
  {
  }

  /** Both truncated-archive signatures start and end with a character that
      is not white space, so trimming never cuts into them. */
  lemma SignatureEnds(sig: string)
    requires sig in CorruptedZipMessages
    ensures sig != [] && !IsWhitespace(sig[0]) && !IsWhitespace(sig[|sig| - 1])
  {
  }

  /** A truncated-archive message, padded with any white space on either
      side, is a corrupted zip file whatever platform code the cause carries. */
  lemma CorruptedZipWinsOverCode(pre: string, sig: string, post: string, code: Option<string>)
    requires forall i :: 0 <= i < |pre| ==> IsWhitespace(pre[i])
    requires forall i :: 0 <= i < |post| ==> IsWhitespace(post[i])
    requires sig in CorruptedZipMessages
    ensures Classify(Cause(pre + sig + post, code)) == CorruptedZipFile
  {
    SignatureEnds(sig);
    TrimAroundWord(pre, sig, post);
  }

  /** Trimming a word with white space of any length on each side gives the word. */
  lemma TrimAroundWord(pre: string, w: string, post: string)
    requires forall i :: 0 <= i < |pre| ==> IsWhitespace(pre[i])
    requires forall i :: 0 <= i < |post| ==> IsWhitespace(post[i])
    requires w != [] && !IsWhitespace(w[0]) && !IsWhitespace(w[|w| - 1])
    ensures Trim(pre + w + post) == w
  {
    TrimEndPad(pre + w, post);
    TrimStartPad(pre, w);
  }

  lemma TrimEndPad(s: string, pad: string)
    requires forall i :: 0 <= i < |pad| ==> IsWhitespace(pad[i])
    requires s != [] && !IsWhitespace(s[|s| - 1])
    ensures TrimEnd(s + pad) == s
  {
    var t := s + pad;
    var i := WhitespaceRunStart(t, |t|);
    assert t[|s| - 1] == s[|s| - 1];
    assert forall k :: |s| <= k < |t| ==> t[k] == pad[k - |s|];
    assert i == |s|;
    assert t[..|s|] == s;
  }

  lemma TrimStartPad(pad: string, s: string)
    requires forall i :: 0 <= i < |pad| ==> IsWhitespace(pad[i])
    requires s != [] && !IsWhitespace(s[0])
    ensures TrimStart(pad + s) == s
  {
    var t := pad + s;
    var j := WhitespaceRunEnd(t, 0);
    assert t[|pad|] == s[0];
    assert forall k :: 0 <= k < |pad| ==> t[k] == pad[k];
    assert j == |pad|;
    assert t[|pad|..] == s;
  }

  // ---------------------------------------------------------------------------
  // The unrecoverable subset

  const UnrecoverableErrors: seq<ErrorCode> :=
    [PermissionError, NoSpaceOnDrive, MaxModuleRetries, FileNotFound, DirectoryNotEmpty, NotADirectory]

  /** `UnrecoverableErrors.includes(c)`. */
  predicate IsUnrecoverable(c: ErrorCode) {
    c in UnrecoverableErrors
  }

  /** The unrecoverable codes are exactly these six; a user abort, a network
      error, a busy resource, a corrupted zip and Unknown may be retried. */
  lemma UnrecoverableCodes(c: ErrorCode)
    ensures IsUnrecoverable(c) <==>
      c in {PermissionError, NoSpaceOnDrive, MaxModuleRetries, FileNotFound, DirectoryNotEmpty, NotADirectory}
    ensures !IsUnrecoverable(UserAborted) && !IsUnrecoverable(NetworkError) && !IsUnrecoverable(ResourceBusy)
    ensures !IsUnrecoverable(CorruptedZipFile) && !IsUnrecoverable(Unknown)
  {
  }

  /** Which platform failures halt a whole run: a classified cause is
      unrecoverable exactly when its key is one of these six platform codes
      and its message is not a truncated-archive signature. */
  lemma ClassifiedUnrecoverable(e: Cause)
    ensures IsUnrecoverable(Classify(e)) <==>
      Trim(e.message) !in CorruptedZipMessages &&
      ClassificationKey(e) in {"EACCES", "EPERM", "ENOSPC", "ENOTEMPTY", "ENOENT", "ENOTDIR"}
  {
    var r := Classify(e);
    UnrecoverableCodes(r);
    if Trim(e.message) !in CorruptedZipMessages {
      var key := ClassificationKey(e);
      assert r == CodeForKey(key);
      match r {
        case PermissionError =>
        case NoSpaceOnDrive =>
        case FileNotFound =>
        case DirectoryNotEmpty =>
        case NotADirectory =>
        case ResourceBusy => assert key == "EBUSY";
        case NetworkError => assert key == "ECONNRESET" || key == "ENOTFOUND";
        case Unknown =>
        case _ =>
      }
    }
  }

  // ---------------------------------------------------------------------------
  // Construction and the wire format

  const Tag: string := "FragmenterError("

  /** `FragmenterError(<Name>): <message>`. */
  function Format(c: ErrorCode, message: string): string {
    Tag + CodeName(c) + "): " + message
  }

  /** Every formatted line carries the tag, at its start. */
  lemma FormatIsTagged(c: ErrorCode, message: string)
    ensures StartsWith(Format(c, message), Tag) && IsFragmenterError(Format(c, message))
  {
    assert OccursAt(Format(c, message), Tag, 0);
  }

  /** `FragmenterError.create(code, message)`. */
  function Create(c: ErrorCode, message: string): (r: FragmenterError)
    ensures r.code == c && r.fromError == None
    ensures r.message == Tag + CodeName(c) + "): " + message
    ensures IsFragmenterError(r.message)
  {
    FormatIsTagged(c, message);
    FragmenterError(c, Format(c, message), None)
  }

  /** `FragmenterError.createFromError(e)`: classifies `e` and wraps it. */
  function CreateFromError(e: Cause): (r: FragmenterError)
    ensures r.code == Classify(e) && r.code != Null
    ensures r.fromError == Some(e)
    ensures r.message == Tag + CodeName(r.code) + "): " + e.message
    ensures IsFragmenterError(r.message)
  {
    var code := Classify(e);
    FormatIsTagged(code, e.message);
    FragmenterError(code, Format(code, e.message), Some(e))
  }

  /** `FragmenterError.isFragmenterError(e)`, on the error's message. */
  predicate IsFragmenterError(message: string) {
    Contains(message, Tag)
  }

  // ---------------------------------------------------------------------------
  // The parser: the regular expression /FragmenterError\((\w+)\):\s*(.+)/

  /** End of the longest run of word characters starting at `i`. */
  function WordEnd(s: string, i: nat): (j: nat)
    requires i <= |s|
    ensures i <= j <= |s|
    ensures forall k :: i <= k < j ==> IsWordChar(s[k])
    ensures j == |s| || !IsWordChar(s[j])
    decreases |s| - i
  {
    if i < |s| && IsWordChar(s[i]) then WordEnd(s, i + 1) else i
  }

  /** End of the longest run of characters other than line terminators. */
  function LineEnd(s: string, i: nat): (j: nat)
    requires i <= |s|
    ensures i <= j <= |s|
    ensures forall k :: i <= k < j ==> !IsLineTerminator(s[k])
    ensures j == |s| || IsLineTerminator(s[j])
    decreases |s| - i
  {
    if i < |s| && !IsLineTerminator(s[i]) then LineEnd(s, i + 1) else i
  }

  /** The last position in [lo, hi) that is not a line terminator: where `.+`
      starts once `\s*` has given back characters. */
  function LastNonTerminator(s: string, lo: nat, hi: nat): (r: Option<nat>)
    requires lo <= hi <= |s|
    ensures r.Some? ==> lo <= r.value < hi && !IsLineTerminator(s[r.value])
    ensures r.Some? ==> forall k :: r.value < k < hi ==> IsLineTerminator(s[k])
    ensures r.None? ==> forall k :: lo <= k < hi ==> IsLineTerminator(s[k])
    decreases hi
  {
    if hi == lo then None
    else if !IsLineTerminator(s[hi - 1]) then Some(hi - 1)
    else LastNonTerminator(s, lo, hi - 1)
  }

  /** The message captures the regular expression can produce: non-empty, free
      of line terminators, and either not starting with white space or one
      character long. */
  predicate IsCapturableMessage(m: string) {
    m != [] && (forall k :: 0 <= k < |m| ==> !IsLineTerminator(m[k]))
    && (!IsWhitespace(m[0]) || |m| == 1)
  }

  /** The match of the regular expression starting exactly at `i`, with its two
      captures (the code word and the message). `\w+` takes the longest word
      run (giving back cannot help, `)` is not a word character); `\s*` takes
      the longest white-space run and gives characters back only when `.+`
      would otherwise match nothing. */
  function MatchAt(s: string, i: nat): (r: Option<(string, string)>)
    requires i <= |s|
    ensures r.Some? ==> OccursAt(s, Tag, i)
    ensures r.Some? ==> r.value.0 != [] && forall k :: 0 <= k < |r.value.0| ==> IsWordChar(r.value.0[k])
    ensures r.Some? ==> IsCapturableMessage(r.value.1)
  {
    if !OccursAt(s, Tag, i) then None
    else
      var w0 := i + |Tag|;
      var w1 := WordEnd(s, w0);
      if w1 == w0 || !(w1 + 2 <= |s| && s[w1] == ')' && s[w1 + 1] == ':') then None
      else
        var p := w1 + 2;
        var q := WhitespaceRunEnd(s, p);
        if q < |s| && !IsLineTerminator(s[q]) then
          Some((s[w0..w1], s[q..LineEnd(s, q)]))
        else
          match LastNonTerminator(s, p, q)
          case None => None
          case Some(k) =>
            assert LineEnd(s, k) == k + 1;
            Some((s[w0..w1], s[k..LineEnd(s, k)]))
  }

  /** `message.match(regex)`: the match at the leftmost position, from `i`
      on, at which the regular expression matches; None when it matches at
      no such position. */
  function Search(s: string, i: nat): (r: Option<(string, string)>)
    requires i <= |s|
    ensures r.Some? ==> exists j :: i <= j <= |s| && OccursAt(s, Tag, j)
    ensures r.Some? ==>
      exists j :: i <= j <= |s| && MatchAt(s, j) == r && forall k :: i <= k < j ==> MatchAt(s, k).None?
    ensures r.None? ==> forall j :: i <= j <= |s| ==> MatchAt(s, j).None?
    ensures r.Some? ==> IsWord(r.value.0) && IsCapturableMessage(r.value.1)
    decreases |s| - i
  {
    match MatchAt(s, i)
    case Some(m) => Some(m)
    case None => if i == |s| then None else Search(s, i + 1)
  }

  /** Why parsing refuses a line: the regular expression does not match, or
      the captured word names no member. */
  datatype ParseError = NoMatch | UnknownCodeString

  /** `FragmenterError.parseFromMessage(message)`; a thrown error is Err. The
      leftmost match decides: no match is NoMatch, a word naming no member is
      UnknownCodeString, and otherwise the error is created with the member
      the word names and the captured message. */
  function ParseFromMessage(message: string): (r: Result<FragmenterError, ParseError>)
    ensures r.Ok? ==> IsFragmenterError(message) && r.value.fromError == None
    ensures r.Ok? ==> exists m :: IsCapturableMessage(m) && r.value == Create(r.value.code, m)
    ensures r.Ok? ==> Search(message, 0).Some? && CodeName(r.value.code) == Search(message, 0).value.0
    ensures r.Ok? ==> r.value == Create(r.value.code, Search(message, 0).value.1)
    ensures r == Err(NoMatch) <==> Search(message, 0).None?
    ensures r == Err(UnknownCodeString) <==>
      Search(message, 0).Some? && CodeOfName(Search(message, 0).value.0).None?
  {
    match Search(message, 0)
    case None => Err(NoMatch)
    case Some((word, text)) =>
      match CodeOfName(word)
      case None => Err(UnknownCodeString)
      case Some(c) => Ok(Create(c, text))
  }

  /** A line without the `FragmenterError(` tag cannot be parsed. */
  lemma ParseNeedsTag(message: string)
    requires !IsFragmenterError(message)
    ensures ParseFromMessage(message) == Err(NoMatch)
  {
  }

  lemma {:induction false} WordEndAt(s: string, i: nat, j: nat)
    requires i <= j < |s|
    requires forall k :: i <= k < j ==> IsWordChar(s[k])
    requires !IsWordChar(s[j])
    ensures WordEnd(s, i) == j
    decreases j - i
  {
    if i < j {
      WordEndAt(s, i + 1, j);
    }
  }

  lemma {:induction false} LineEndAtEnd(s: string, i: nat)
    requires i <= |s|
    requires forall k :: i <= k < |s| ==> !IsLineTerminator(s[k])
    ensures LineEnd(s, i) == |s|
    decreases |s| - i
  {
    if i < |s| {
      LineEndAtEnd(s, i + 1);
    }
  }

  predicate IsWord(w: string) {
    w != [] && forall k :: 0 <= k < |w| ==> IsWordChar(w[k])
  }

  predicate WordCharsFrom(w: string, i: nat)
    requires i <= |w|
    decreases |w| - i
  {
    i == |w| || (IsWordChar(w[i]) && WordCharsFrom(w, i + 1))
  }

  lemma {:induction false} WordCharsFromAll(w: string, i: nat)
    requires i <= |w| && WordCharsFrom(w, i)
    ensures forall k :: i <= k < |w| ==> IsWordChar(w[k])
    decreases |w| - i
  {
    if i < |w| {
      WordCharsFromAll(w, i + 1);
    }
  }

  /** A member name is a word, so `\w+` captures all of it. */
  lemma CodeNameIsWord(c: ErrorCode)
    ensures IsWord(CodeName(c))
  {
    match c {
      case Null => NullIsWord();
      case PermissionError => PermissionErrorIsWord();
      case ResourceBusy => ResourceBusyIsWord();
      case NoSpaceOnDrive => NoSpaceOnDriveIsWord();
      case MaxModuleRetries => MaxModuleRetriesIsWord();
      case FileNotFound => FileNotFoundIsWord();
      case DirectoryNotEmpty => DirectoryNotEmptyIsWord();
      case NotADirectory => NotADirectoryIsWord();
      case ModuleJsonInvalid => ModuleJsonInvalidIsWord();
      case ModuleCrcMismatch => ModuleCrcMismatchIsWord();
      case UserAborted => UserAbortedIsWord();
      case NetworkError => NetworkErrorIsWord();
      case CorruptedZipFile => CorruptedZipFileIsWord();
      case Unknown => UnknownIsWord();
    }
  }

  lemma NullIsWord()
    ensures IsWord(CodeName(Null))
  {
    assert WordCharsFrom("null", 0);
    WordCharsFromAll(CodeName(Null), 0);
  }

  lemma PermissionErrorIsWord()
    ensures IsWord(CodeName(PermissionError))
  {
    assert WordCharsFrom("PermissionError", 12);
    assert WordCharsFrom("PermissionError", 8);
    assert WordCharsFrom("PermissionError", 4);
    assert WordCharsFrom("PermissionError", 0);
    WordCharsFromAll(CodeName(PermissionError), 0);
  }

  lemma ResourceBusyIsWord()
    ensures IsWord(CodeName(ResourceBusy))
  {
    assert WordCharsFrom("ResourceBusy", 8);
    assert WordCharsFrom("ResourceBusy", 4);
    assert WordCharsFrom("ResourceBusy", 0);
    WordCharsFromAll(CodeName(ResourceBusy), 0);
  }

  lemma NoSpaceOnDriveIsWord()
    ensures IsWord(CodeName(NoSpaceOnDrive))
  {
    assert WordCharsFrom("NoSpaceOnDrive", 12);
    assert WordCharsFrom("NoSpaceOnDrive", 8);
    assert WordCharsFrom("NoSpaceOnDrive", 4);
    assert WordCharsFrom("NoSpaceOnDrive", 0);
    WordCharsFromAll(CodeName(NoSpaceOnDrive), 0);
  }

  lemma MaxModuleRetriesIsWord()
    ensures IsWord(CodeName(MaxModuleRetries))
  {
    assert WordCharsFrom("MaxModuleRetries", 12);
    assert WordCharsFrom("MaxModuleRetries", 8);
    assert WordCharsFrom("MaxModuleRetries", 4);
    assert WordCharsFrom("MaxModuleRetries", 0);
    WordCharsFromAll(CodeName(MaxModuleRetries), 0);
  }

  lemma FileNotFoundIsWord()
    ensures IsWord(CodeName(FileNotFound))
  {
    assert WordCharsFrom("FileNotFound", 8);
    assert WordCharsFrom("FileNotFound", 4);
    assert WordCharsFrom("FileNotFound", 0);
    WordCharsFromAll(CodeName(FileNotFound), 0);
  }

  lemma DirectoryNotEmptyIsWord()
    ensures IsWord(CodeName(DirectoryNotEmpty))
  {
    assert WordCharsFrom("DirectoryNotEmpty", 16);
    assert WordCharsFrom("DirectoryNotEmpty", 12);
    assert WordCharsFrom("DirectoryNotEmpty", 8);
    assert WordCharsFrom("DirectoryNotEmpty", 4);
    assert WordCharsFrom("DirectoryNotEmpty", 0);
    WordCharsFromAll(CodeName(DirectoryNotEmpty), 0);
  }

  lemma NotADirectoryIsWord()
    ensures IsWord(CodeName(NotADirectory))
  {
    assert WordCharsFrom("NotADirectory", 12);
    assert WordCharsFrom("NotADirectory", 8);
    assert WordCharsFrom("NotADirectory", 4);
    assert WordCharsFrom("NotADirectory", 0);
    WordCharsFromAll(CodeName(NotADirectory), 0);
  }

  lemma ModuleJsonInvalidIsWord()
    ensures IsWord(CodeName(ModuleJsonInvalid))
  {
    assert WordCharsFrom("ModuleJsonInvalid", 16);
    assert WordCharsFrom("ModuleJsonInvalid", 12);
    assert WordCharsFrom("ModuleJsonInvalid", 8);
    assert WordCharsFrom("ModuleJsonInvalid", 4);
    assert WordCharsFrom("ModuleJsonInvalid", 0);
    WordCharsFromAll(CodeName(ModuleJsonInvalid), 0);
  }

  lemma ModuleCrcMismatchIsWord()
    ensures IsWord(CodeName(ModuleCrcMismatch))
  {
    assert WordCharsFrom("ModuleCrcMismatch", 16);
    assert WordCharsFrom("ModuleCrcMismatch", 12);
    assert WordCharsFrom("ModuleCrcMismatch", 8);
    assert WordCharsFrom("ModuleCrcMismatch", 4);
    assert WordCharsFrom("ModuleCrcMismatch", 0);
    WordCharsFromAll(CodeName(ModuleCrcMismatch), 0);
  }

  lemma UserAbortedIsWord()
    ensures IsWord(CodeName(UserAborted))
  {
    assert WordCharsFrom("UserAborted", 8);
    assert WordCharsFrom("UserAborted", 4);
    assert WordCharsFrom("UserAborted", 0);
    WordCharsFromAll(CodeName(UserAborted), 0);
  }

  lemma NetworkErrorIsWord()
    ensures IsWord(CodeName(NetworkError))
  {
    assert WordCharsFrom("NetworkError", 8);
    assert WordCharsFrom("NetworkError", 4);
    assert WordCharsFrom("NetworkError", 0);
    WordCharsFromAll(CodeName(NetworkError), 0);
  }

  lemma CorruptedZipFileIsWord()
    ensures IsWord(CodeName(CorruptedZipFile))
  {
    assert WordCharsFrom("CorruptedZipFile", 12);
    assert WordCharsFrom("CorruptedZipFile", 8);
    assert WordCharsFrom("CorruptedZipFile", 4);
    assert WordCharsFrom("CorruptedZipFile", 0);
    WordCharsFromAll(CodeName(CorruptedZipFile), 0);
  }

  lemma UnknownIsWord()
    ensures IsWord(CodeName(Unknown))
  {
    assert WordCharsFrom("Unknown", 4);
    assert WordCharsFrom("Unknown", 0);
    WordCharsFromAll(CodeName(Unknown), 0);
  }

  /** The regular expression matches `FragmenterError(w): m` at its start and
      captures `w` and, for a capturable message, `m` itself. */
  lemma MatchLine(w: string, m: string)
    requires IsWord(w) && IsCapturableMessage(m)
    ensures MatchAt(Tag + w + "): " + m, 0) == Some((w, m))
  {
    var s := Tag + w + "): " + m;
    var w0 := |Tag|;
    var w1 := w0 + |w|;
    assert OccursAt(s, Tag, 0);
    assert s[w1] == ')' && s[w1 + 1] == ':';
    assert forall k :: w0 <= k < w1 ==> s[k] == w[k - w0];
    WordEndAt(s, w0, w1);
    assert s[w0..w1] == w;
    var p := w1 + 2;
    assert s[p] == ' ';
    assert s[p + 1..] == m;
    LineEndAtEnd(s, p + 1);
    if !IsWhitespace(m[0]) {
      assert WhitespaceRunEnd(s, p + 1) == p + 1;
      assert WhitespaceRunEnd(s, p) == p + 1;
      assert s[p + 1..LineEnd(s, p + 1)] == m;
    } else {
      assert |m| == 1 && |s| == p + 2;
      assert WhitespaceRunEnd(s, p + 1) == p + 2;
      assert WhitespaceRunEnd(s, p) == |s|;
      assert LastNonTerminator(s, p, |s|) == Some(p + 1);
      assert s[p + 1..LineEnd(s, p + 1)] == m;
    }
  }

  // ---------------------------------------------------------------------------
  // What the regular expression means, stated without the matcher

  /** `s[lo..hi]` is white space only. */
  predicate SpacesBetween(s: string, lo: nat, hi: nat)
    requires lo <= hi <= |s|
  {
    forall j :: lo <= j < hi ==> IsWhitespace(s[j])
  }

  /** One way the regular expression matches at `i`: the tag, the word `w`
      and `):`, then white space up to `k` for `\s*`, then `s[k..e]` for `.+`,
      non-empty, free of line terminators and running to the end of its line. */
  predicate MatchesWith(s: string, i: nat, w: string, k: nat, e: nat) {
    && IsWord(w)
    && OccursAt(s, Tag + w + "):", i)
    && i + |Tag| + |w| + 2 <= k < e <= |s|
    && SpacesBetween(s, i + |Tag| + |w| + 2, k)
    && (forall j :: k <= j < e ==> !IsLineTerminator(s[j]))
    && (e == |s| || IsLineTerminator(s[e]))
  }

  /** `\s*` is greedy: `.+` cannot start at any later position that white
      space reaches. */
  predicate SpacesGreedy(s: string, i: nat, w: string, k: nat)
    requires i + |Tag| + |w| + 2 <= k <= |s|
  {
    forall k' :: k < k' < |s| && SpacesBetween(s, i + |Tag| + |w| + 2, k') ==> IsLineTerminator(s[k'])
  }

  /** The matcher is sound: what it returns at `i` is a match of the regular
      expression there, with the greedy split of `\s*` and `.+`. */
  lemma MatchAtSound(s: string, i: nat)
    requires i <= |s| && MatchAt(s, i).Some?
    ensures var w := MatchAt(s, i).value.0;
      exists k: nat, e: nat :: MatchesWith(s, i, w, k, e) && SpacesGreedy(s, i, w, k) && MatchAt(s, i).value.1 == s[k..e]
  {
    var w := MatchAt(s, i).value.0;
    var w0 := i + |Tag|;
    var w1 := WordEnd(s, w0);
    assert w == s[w0..w1];
    var p := w1 + 2;
    assert s[i..p] == Tag + w + "):" by {
      assert s[i..p] == s[i..w0] + s[w0..w1] + s[w1..p];
      assert s[w1..p] == "):";
    }
    var q := WhitespaceRunEnd(s, p);
    var k: nat;
    if q < |s| && !IsLineTerminator(s[q]) {
      k := q;
      forall k' | k < k' < |s| ensures !SpacesBetween(s, p, k') {
        assert !IsWhitespace(s[q]);
      }
    } else {
      k := LastNonTerminator(s, p, q).value;
    }
    var e := LineEnd(s, k);
    assert MatchAt(s, i).value.1 == s[k..e];
    assert MatchesWith(s, i, w, k, e);
    assert SpacesGreedy(s, i, w, k);
  }

  /** The matcher is complete: wherever the regular expression can match at
      `i`, the matcher finds a match there, capturing the same word. */
  lemma MatchAtComplete(s: string, i: nat, w: string, k: nat, e: nat)
    requires MatchesWith(s, i, w, k, e)
    ensures MatchAt(s, i).Some? && MatchAt(s, i).value.0 == w
  {
    var head := Tag + w + "):";
    var w0 := i + |Tag|;
    var w1 := w0 + |w|;
    assert forall j :: i <= j < w1 + 2 ==> s[j] == head[j - i];
    assert s[i..w0] == Tag;
    assert s[w0..w1] == w;
    assert s[w1] == ')' && s[w1 + 1] == ':';
    WordEndAt(s, w0, w1);
    var p := w1 + 2;
    var q := WhitespaceRunEnd(s, p);
    assert k <= q;
    if !(q < |s| && !IsLineTerminator(s[q])) {
      assert k < q && !IsLineTerminator(s[k]);
      assert LastNonTerminator(s, p, q).Some?;
    }
  }

  /** The first refusal of `parseFromMessage`: a line is refused as not
      matching exactly when the regular expression matches nowhere in it. */
  lemma ParseNoMatchIff(message: string)
    ensures ParseFromMessage(message) == Err(NoMatch) <==>
      forall i, w, k, e :: !MatchesWith(message, i, w, k, e)
  {
    if Search(message, 0).None? {
      forall i, w, k, e | MatchesWith(message, i, w, k, e) ensures false {
        MatchAtComplete(message, i, w, k, e);
      }
    } else {
      var j :| 0 <= j <= |message| && MatchAt(message, j) == Search(message, 0);
      MatchAtSound(message, j);
    }
  }

  /** The second refusal: a line whose word names no member is refused as an
      unknown code string, whatever the word and the message. */
  lemma ParseUnknownWord(w: string, m: string)
    requires IsWord(w) && CodeOfName(w).None? && IsCapturableMessage(m)
    ensures ParseFromMessage(Tag + w + "): " + m) == Err(UnknownCodeString)
  {
    MatchLine(w, m);
  }

  /** Round trip: parsing the line of `create(c, m)` gives back `create(c, m)`,
      for every message the parser can capture. */
  lemma {:induction false} ParseCreate(c: ErrorCode, m: string)
    requires IsCapturableMessage(m)
    ensures ParseFromMessage(Create(c, m).message) == Ok(Create(c, m))
  {
    CodeNameIsWord(c);
    MatchLine(CodeName(c), m);
    CodeOfNameOfCode(c);
  }

  /** ... and only for those: a message the parser cannot capture does not
      survive the round trip. */
  lemma ParseCreateOnlyCapturable(c: ErrorCode, m: string)
    requires ParseFromMessage(Create(c, m).message) == Ok(Create(c, m))
    ensures IsCapturableMessage(m)
  {
    var r := ParseFromMessage(Create(c, m).message);
    var m' :| IsCapturableMessage(m') && r.value == Create(r.value.code, m');
    SamePrefixCancels(Tag + CodeName(c) + "): ", m, m');
  }

  /** Parsing is idempotent: re-parsing the line of a parsed error yields the
      same error. */
  lemma ParseIdempotent(line: string)
    requires ParseFromMessage(line).Ok?
    ensures ParseFromMessage(ParseFromMessage(line).value.message) == ParseFromMessage(line)
  {
    var e := ParseFromMessage(line).value;
    var m :| IsCapturableMessage(m) && e == Create(e.code, m);
    ParseCreate(e.code, m);
  }

  /** A numeric word such as `FragmenterError(3): …` is refused even though 3
      is the value of a member. */
  lemma ParseRefusesNumericCode(n: nat, m: string)
    requires IsCapturableMessage(m)
    ensures ParseFromMessage(Tag + Decimal(n) + "): " + m) == Err(UnknownCodeString)
  {
    var d := Decimal(n);
    assert IsWord(d);
    MatchLine(d, m);
    NumericNameRefused(n);
  }
}
