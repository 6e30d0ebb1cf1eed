/**
  The editor-facing decisions of src/nvim.rs: which event, if any, a decoded
  notification from Neovim turns into, and which requests get a reply.

  JSON decoding is done by serde_json in the program; here its outcome is an
  input (`None` when the message does not decode as the expected type).
  The events the program sends down its channel are return values.
*/
module Nvim {
  import opened Wrappers
  import opened Utf8
  import opened TextLines
  import opened Framing

  /** `NvimMessage` (src/nvim.rs:14-19): the events sent to the presence side. */
  datatype NvimMessage =
    | NvimError(message: string)
    | FileOpened(filename: string)
    | FileChanged(filename: string, contents: string)
    | Shutdown

  /** The parts of a decoded `textDocument/didOpen` notification that are
      used: the document's URI path and its language id. */
  datatype DidOpenNotification = DidOpenNotification(path: string, languageId: string)

  /** One entry of `contentChanges`; with full synchronisation its `text` is
      the whole document. */
  datatype ContentChange = ContentChange(text: string)

  /** The parts of a decoded `textDocument/didChange` notification that are
      used. */
  datatype DidChangeNotification = DidChangeNotification(path: string, contentChanges: seq<ContentChange>)

  /** What serde_json makes of one incoming message: its `method` field, the
      message read as each notification type, and the serialised reply to an
      `initialize` request (`to_string(...).ok()`). */
  datatype Incoming = Incoming(
    methodName: string,
    asDidOpen: Option<DidOpenNotification>,
    asDidChange: Option<DidChangeNotification>,
    initializeReply: Option<seq<byte>>)

  /** What handling one message produces: a reply to write to standard
      output and an event for the channel. */
  datatype Handled = Handled(reply: Option<seq<byte>>, event: Option<NvimMessage>)

  // ---------------------------------------------------------------------
  // get_file_name
  // ---------------------------------------------------------------------

  /** `str::split` on one character: the pieces between the occurrences of
      `sep`, always at least one. */
  function Split(s: string, sep: char): (parts: seq<string>)
    ensures |parts| >= 1
    decreases |s|
  {
    var i := IndexOf(s, sep);
    if i == |s| then [s] else [s[..i]] + Split(s[i + 1..], sep)
  }

  /** The pieces put back together with `sep` between them. */
  function Join(parts: seq<string>, sep: char): string
    requires |parts| >= 1
  {
    if |parts| == 1 then parts[0] else parts[0] + [sep] + Join(parts[1..], sep)
  }

  /** `get_file_name` (src/nvim.rs:161-163): the last piece of the path
      split at '/'. */
  function GetFileName(path: string): (name: Option<string>)
    ensures name.Some?
  {
    var parts := Split(path, '/');
    if |parts| == 0 then None else Some(parts[|parts| - 1])
  }

  /** Splitting loses nothing: joining the pieces gives the string back. */
  lemma {:induction false} SplitJoin(s: string, sep: char)
    ensures Join(Split(s, sep), sep) == s
    decreases |s|
  {
    var i := IndexOf(s, sep);
    if i < |s| {
      SplitJoin(s[i + 1..], sep);
      JoinCons(s[..i], Split(s[i + 1..], sep), sep);
      assert s == s[..i] + [sep] + s[i + 1..];
    }
  }

  /** Joining a piece in front of at least one more. */
  lemma JoinCons(first: string, rest: seq<string>, sep: char)
    requires |rest| >= 1
    ensures Join([first] + rest, sep) == first + [sep] + Join(rest, sep)
  {
    assert ([first] + rest)[1..] == rest;
  }

  /** No piece of a split holds the separator. */
  lemma {:induction false} SplitPieces(s: string, sep: char)
    ensures forall k :: 0 <= k < |Split(s, sep)| ==> sep !in Split(s, sep)[k]
    decreases |s|
  {
    var i := IndexOf(s, sep);
    if i < |s| {
      SplitPieces(s[i + 1..], sep);
    }
  }

  /** Joining is undone by splitting, as long as no piece holds the
      separator. */
  lemma {:induction false} JoinSplit(parts: seq<string>, sep: char)
    requires |parts| >= 1
    requires forall k :: 0 <= k < |parts| ==> sep !in parts[k]
    ensures Split(Join(parts, sep), sep) == parts
    decreases |parts|
  {
    if |parts| > 1 {
      JoinFirstPiece(parts, sep);
      JoinSplit(parts[1..], sep);
    } else {
      assert IndexOf(parts[0], sep) == |parts[0]|;
    }
  }

  /** The first separator of a join is the one after the first piece. */
  lemma JoinFirstPiece(parts: seq<string>, sep: char)
    requires |parts| > 1 && sep !in parts[0]
    ensures IndexOf(Join(parts, sep), sep) == |parts[0]|
    ensures Join(parts, sep)[..|parts[0]|] == parts[0]
    ensures Join(parts, sep)[|parts[0]| + 1..] == Join(parts[1..], sep)
  {
    var s := Join(parts, sep);
    assert s == parts[0] + [sep] + Join(parts[1..], sep);
    assert s[|parts[0]|] == sep;
  }

  /** The last piece of `dir + "/" + name` is `name` when `name` has no '/'. */
  lemma {:induction false} LastPiece(dir: string, name: string)
    requires '/' !in name
    ensures Split(dir + "/" + name, '/')[|Split(dir + "/" + name, '/')| - 1] == name
    decreases |dir|
  {
    var s := dir + "/" + name;
    var i := IndexOf(s, '/');
    assert s[|dir|] == '/';
    if i < |dir| {
      assert s[i + 1..] == dir[i + 1..] + "/" + name;
      LastPiece(dir[i + 1..], name);
    } else {
      assert i == |dir|;
      assert s[i + 1..] == name;
      assert IndexOf(name, '/') == |name|;
    }
  }

  /** The file name is the text after the last '/' of the path. */
  lemma FileNameOfPath(dir: string, name: string)
    requires '/' !in name
    ensures GetFileName(dir + "/" + name) == Some(name)
  {
    LastPiece(dir, name);
  }

  /** A path without '/' is its own file name. */
  lemma FileNameWithoutSlash(path: string)
    requires '/' !in path
    ensures GetFileName(path) == Some(path)
  {
    assert IndexOf(path, '/') == |path|;
  }

  /** A path that ends in '/' has the empty file name. */
  lemma DirectoryHasEmptyName(dir: string)
    ensures GetFileName(dir + "/") == Some("")
  {
    assert dir + "/" == dir + "/" + "";
    FileNameOfPath(dir, "");
  }

  /** `piece` is what follows the last `sep` in `s`, or all of `s` when
      `s` holds no `sep`. */
  predicate IsLastPiece(s: string, piece: string, sep: char) {
    sep !in piece && |piece| <= |s| && s[|s| - |piece|..] == piece
    && (|piece| == |s| || s[|s| - |piece| - 1] == sep)
  }

  /** A string has exactly one last piece. */
  lemma LastPieceUnique(s: string, a: string, b: string, sep: char)
    requires IsLastPiece(s, a, sep) && IsLastPiece(s, b, sep)
    ensures a == b
  {
  }

  /** Joining keeps the last piece last. */
  lemma {:induction false} LastOfJoin(parts: seq<string>, sep: char)
    requires |parts| >= 1
    requires forall k :: 0 <= k < |parts| ==> sep !in parts[k]
    ensures IsLastPiece(Join(parts, sep), parts[|parts| - 1], sep)
    decreases |parts|
  {
    if |parts| > 1 {
      LastOfJoin(parts[1..], sep);
      LastPieceAfterSeparator(parts[0], Join(parts[1..], sep), parts[|parts| - 1], sep);
    }
  }

  /** Text put in front of a separator does not change what follows the
      last separator. */
  lemma LastPieceAfterSeparator(first: string, rest: string, piece: string, sep: char)
    requires IsLastPiece(rest, piece, sep)
    ensures IsLastPiece(first + [sep] + rest, piece, sep)
  {
    var s := first + [sep] + rest;
    assert s[|s| - |piece|..] == rest[|rest| - |piece|..];
    assert s[|s| - |rest| - 1] == sep;
  }

  /** `get_file_name` gives what follows the last '/' of the path. */
  lemma FileNameSpec(path: string)
    ensures IsLastPiece(path, GetFileName(path).value, '/')
  {
    SplitJoin(path, '/');
    SplitPieces(path, '/');
    LastOfJoin(Split(path, '/'), '/');
  }

  // ---------------------------------------------------------------------
  // did_open and did_change
  // ---------------------------------------------------------------------

  /** Buffer kinds of completion and picker plugins that are not files
      (src/nvim.rs:122-127). */
  const Blacklist: seq<string> := ["cmp_docs", "TelescopeResults", "TelescopePrompt", "cmp_menu"]

  /** `did_open` (src/nvim.rs:112-141): the event for a didOpen
      notification, if any. */
  function DidOpen(n: Option<DidOpenNotification>): (e: Option<NvimMessage>)
    ensures e.Some? ==> n.Some? && n.value.languageId !in Blacklist
    ensures e.Some? ==> e.value.FileOpened? && e.value.filename != ""
  {
    match n
    case None => None
    case Some(notification) =>
      var filename := GetFileName(notification.path).UnwrapOr("unknown");
      if notification.languageId in Blacklist then None
      else if filename == "" then None
      else Some(FileOpened(filename))
  }

  /** `did_change` (src/nvim.rs:143-159): the event for a didChange
      notification, if any. Indexing `content_changes[0]` panics on an
      empty list, so a notification that reaches it must carry a change. */
  function DidChange(n: Option<DidChangeNotification>): (e: Option<NvimMessage>)
    requires n.Some? && GetFileName(n.value.path).UnwrapOr("") != "" ==> |n.value.contentChanges| > 0
    ensures e.Some? ==> n.Some? && e.value.FileChanged? && e.value.filename != ""
    ensures e.Some? ==> |n.value.contentChanges| > 0 && e.value.contents == n.value.contentChanges[0].text
  {
    match n
    case None => None
    case Some(notification) =>
      var filename := GetFileName(notification.path).UnwrapOr("");
      if filename == "" then None
      else Some(FileChanged(filename, notification.contentChanges[0].text))
  }

  /** didOpen emits an event exactly for a notification that decoded, whose
      language is not blacklisted and whose path does not end in '/'; the
      event names the file after the last '/', never the "unknown"
      fallback. */
  lemma DidOpenSpec(n: Option<DidOpenNotification>, filename: string)
    requires n.Some? ==> IsLastPiece(n.value.path, filename, '/')
    ensures DidOpen(n).Some? <==> n.Some? && n.value.languageId !in Blacklist && filename != ""
    ensures DidOpen(n).Some? ==> DidOpen(n).value == FileOpened(filename)
  {
    if n.Some? {
      FileNameSpec(n.value.path);
      LastPieceUnique(n.value.path, filename, GetFileName(n.value.path).value, '/');
    }
  }

  /** didChange emits an event exactly for a notification that decoded and
      whose path does not end in '/'; the event carries the file name and
      the text of the first content change. */
  lemma DidChangeSpec(n: Option<DidChangeNotification>, filename: string)
    requires n.Some? ==> IsLastPiece(n.value.path, filename, '/')
    requires n.Some? && filename != "" ==> |n.value.contentChanges| > 0
    ensures n.Some? && GetFileName(n.value.path).UnwrapOr("") != "" ==> |n.value.contentChanges| > 0
    ensures DidChange(n).Some? <==> n.Some? && filename != ""
    ensures DidChange(n).Some? ==> DidChange(n).value == FileChanged(filename, n.value.contentChanges[0].text)
  {
    if n.Some? {
      FileNameSpec(n.value.path);
      LastPieceUnique(n.value.path, filename, GetFileName(n.value.path).value, '/');
    }
  }

  /** A buffer of a blacklisted kind is never reported, whatever its path. */
  lemma BlacklistedIgnored(path: string, languageId: string)
    requires languageId in Blacklist
    ensures DidOpen(Some(DidOpenNotification(path, languageId))) == None
  {
  }

  /** Opening "main.rs" in any directory reports "main.rs", unless the
      buffer belongs to a picker. */
  lemma DidOpenInDirectory(dir: string)
    ensures DidOpen(Some(DidOpenNotification(dir + "/main.rs", "rust"))) == Some(FileOpened("main.rs"))
    ensures DidOpen(Some(DidOpenNotification(dir + "/main.rs", "TelescopePrompt"))) == None
  {
    assert dir + "/main.rs" == dir + "/" + "main.rs";
    FileNameOfPath(dir, "main.rs");
  }

  // ---------------------------------------------------------------------
  // message_handler
  // ---------------------------------------------------------------------

  /** Whether a message of this kind may reach `DidChange`: `did_change`
      panics on a change notification with a file name and no content
      change. */
  predicate Handleable(m: Incoming) {
    (m.methodName == "textDocument/didChange" && m.asDidChange.Some?
     && GetFileName(m.asDidChange.value.path).UnwrapOr("") != "")
    ==> |m.asDidChange.value.contentChanges| > 0
  }

  /** The dispatch on the method name in `message_handler`
      (src/nvim.rs:26-42). */
  function Handle(m: Incoming): (h: Handled)
    requires Handleable(m)
    ensures h.reply.Some? ==> m.methodName == "initialize" && h.reply == m.initializeReply
    ensures h.reply.Some? ==> h.event.None?
    ensures h.event.Some? ==> !h.event.value.NvimError?
  {
    if m.methodName == "initialize" then Handled(m.initializeReply, None)
    else if m.methodName == "textDocument/didOpen" then Handled(None, DidOpen(m.asDidOpen))
    else if m.methodName == "textDocument/didChange" then Handled(None, DidChange(m.asDidChange))
    else if m.methodName == "shutdown" then Handled(None, Some(Shutdown))
    else Handled(None, None)
  }

  /** The bytes `message_handler` writes to standard output. */
  function Output(h: Handled): seq<byte> {
    if h.reply.Some? then Frame(h.reply.value) else []
  }

  /** `message_handler` (src/nvim.rs:26-48): dispatches the message, writes
      the reply, if any, as one frame and returns the event for the
      channel. */
  method MessageHandler(out: OutputStream, m: Incoming) returns (event: Option<NvimMessage>)
    requires Handleable(m)
    modifies out
    ensures event == Handle(m).event
    ensures out.written == old(out.written) + Output(Handle(m))
  {
    var response: Option<seq<byte>> := None;
    event := None;
    if m.methodName == "initialize" {
      response := m.initializeReply;
    } else if m.methodName == "textDocument/didOpen" {
      event := DidOpen(m.asDidOpen);
    } else if m.methodName == "textDocument/didChange" {
      event := DidChange(m.asDidChange);
    } else if m.methodName == "shutdown" {
      event := Some(Shutdown);
    }
    if response.Some? {
      Send(out, response.value);
    }
  }

  /** Only `initialize` is answered, and it is answered with its serialised
      result whenever serialisation succeeded. */
  lemma OnlyInitializeReplies(m: Incoming)
    requires Handleable(m)
    ensures Handle(m).reply.Some? <==> m.methodName == "initialize" && m.initializeReply.Some?
    ensures Handle(m).reply.Some? ==> Handle(m).reply == m.initializeReply && Handle(m).event == None
  {
  }

  /** A `shutdown` request, and only that, emits `Shutdown`. */
  lemma ShutdownOnlyOnRequest(m: Incoming)
    requires Handleable(m)
    ensures Handle(m).event == Some(Shutdown) <==> m.methodName == "shutdown"
  {
    if m.methodName == "textDocument/didOpen" {
      assert DidOpen(m.asDidOpen) != Some(Shutdown);
    }
  }

  /** didOpen and didChange messages are routed to `did_open` and
      `did_change`; each event comes from the notification of its own kind,
      and the handler never emits `NvimError`. */
  lemma EventsMatchMethods(m: Incoming)
    requires Handleable(m)
    ensures m.methodName == "textDocument/didOpen" ==> Handle(m) == Handled(None, DidOpen(m.asDidOpen))
    ensures m.methodName == "textDocument/didChange" ==> Handle(m) == Handled(None, DidChange(m.asDidChange))
    ensures Handle(m).event.Some? && Handle(m).event.value.FileOpened? ==>
      m.methodName == "textDocument/didOpen" && Handle(m).event == DidOpen(m.asDidOpen)
    ensures Handle(m).event.Some? && Handle(m).event.value.FileChanged? ==>
      m.methodName == "textDocument/didChange" && Handle(m).event == DidChange(m.asDidChange)
    ensures Handle(m).event.Some? ==> !Handle(m).event.value.NvimError?
  {
  }

  /** A method the program does not know produces neither a reply nor an
      event. */
  lemma UnknownMethodIgnored(m: Incoming)
    requires m.methodName !in {"initialize", "textDocument/didOpen", "textDocument/didChange", "shutdown"}
    ensures Handleable(m) && Handle(m) == Handled(None, None)
    ensures Output(Handle(m)) == []
  {
  }

  /** The reply to `initialize` reaches the editor intact: reading the
      handler's output back gives the reply, and the reader stops right
      after it. */
  lemma InitializeReplyReadsBack(m: Incoming, after: seq<byte>)
    requires m.methodName == "initialize" && m.initializeReply.Some?
    requires ValidUtf8(m.initializeReply.value) && |m.initializeReply.value| <= ISIZE_MAX
    ensures Handleable(m)
    ensures ReadFrom(Output(Handle(m)) + after, 0) == (Ok(m.initializeReply), |Output(Handle(m))|)
  {
    var reply := m.initializeReply.value;
    assert Output(Handle(m)) == Frame(reply);
    ReadSendRoundTrip([], reply, after);
    assert [] + Frame(reply) + after == Frame(reply) + after;
  }
}
