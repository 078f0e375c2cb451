/**
  The Support skill: the diagnostic e-mail it sends, with the configuration
  and log files attached, and the dispatch of the "contact support" intent.

  The file system, the glob expansion, the device name and the clock are
  inputs (an `Environment`); sending the e-mail is an outcome the caller
  supplies (it returns or it raises).
 */
module Support {
  import opened Wrappers
  import Base64
  import Utf16
  import PosixPath
  import Lines

  /** A file of more bytes than this is attached as its tail only. */
  const TruncateAboveBytes: nat := 20_000_000
  /** How many newline-separated pieces of a large file are attached. */
  const TailPieces: nat := 5000

  const DiagnosticTitle: string := "Diagnostic Info"

  /** What `os.path.getsize` and `open(path).read()` report for a file that can be read. */
  datatype FileInfo = FileInfo(size: nat, text: string)

  /**
    Everything the skill reads from its host: the configuration directory,
    the logs directory, the glob expansion of a pattern, the files that can be
    sized and read (a path missing here is one whose `getsize` or `read`
    raises), the device name and the current time as text.
   */
  datatype Environment = Environment(
    configDir: string,
    logsDir: string,
    glob: string -> seq<string>,
    files: map<string, FileInfo>,
    deviceName: string,
    now: string)

  /** The request handed to the e-mail collaborator. */
  datatype Email = Email(title: string, body: string, recipient: string, attachments: map<string, string>)

  /** The two glob patterns whose matches are attached: configuration files, then logs. */
  function Patterns(configDir: string, logsDir: string): seq<string>
  {
    [configDir + "/*.yml", logsDir + "/*.log"]
  }

  /** The matches of each pattern in turn. */
  function Expand(patterns: seq<string>, glob: string -> seq<string>): seq<string>
  {
    if patterns == [] then []
    else Expand(patterns[..|patterns| - 1], glob) + glob(patterns[|patterns| - 1])
  }

  /**
    Every file the attachment loop visits, in the order it visits them: the
    configuration matches followed by the log matches.
   */
  function MatchedPaths(env: Environment): (paths: seq<string>)
    ensures paths == env.glob(env.configDir + "/*.yml") + env.glob(env.logsDir + "/*.log")
  {
    var patterns := Patterns(env.configDir, env.logsDir);
    var first := patterns[..1];
    assert first[..0] == [] && first[0] == patterns[0];
    assert Expand(first, env.glob) == env.glob(patterns[0]);
    assert patterns[..1] == first;
    Expand(patterns, env.glob)
  }

  /**
    The attachment name: the base name without its extension, a dot, then the
    extension with its own dot. It is a bare file name: the file's base name
    with one more dot put in front of its extension.
   */
  function AttachmentKey(path: string): (key: string)
    ensures '/' !in key
    ensures var ext := PosixPath.SplitExt(path).1;
      && |key| > |ext|
      && key[|key| - |ext| - 1] == '.'
      && key[..|key| - |ext| - 1] + key[|key| - |ext|..] == PosixPath.BaseName(path)
  {
    var split := PosixPath.SplitExt(path);
    var base, ext := PosixPath.BaseName(split.0), split.1;
    PosixPath.BaseNameAppend(split.0, ext);
    PosixPath.InsertDot(base, ext);
    var key := base + "." + ext;
    key
  }

  /** A file `dir/stem.ext`, as a `*.ext` glob matches it, is named `stem..ext`. */
  lemma AttachmentKeyOfMatch(dir: string, stem: string, ext: string)
    requires stem != [] && stem[0] != '.'
    requires '/' !in stem && '/' !in ext && '.' !in ext
    ensures AttachmentKey(dir + "/" + stem + "." + ext) == stem + ".." + ext
  {
    var root := dir + "/" + stem;
    PosixPath.SplitExtOfFileName(dir, stem, ext);
    PosixPath.BaseNameOfFileName(dir, stem);
    assert dir + "/" + stem + "." + ext == root + "." + ext;
    assert stem + "." + ("." + ext) == stem + ".." + ext;
  }

  /**
    The text attached for a file: whole up to the size limit, else its last
    pieces. Either way it is a suffix of the file's text.
   */
  function AttachedText(info: FileInfo): (t: string)
    ensures |t| <= |info.text| && t == info.text[|info.text| - |t|..]
    ensures info.size <= TruncateAboveBytes ==> t == info.text
  {
    if info.size > TruncateAboveBytes then Lines.LastLines(info.text, TailPieces) else info.text
  }

  /**
    The attached text, UTF-16 encoded with its byte order mark, then base 64
    encoded: never empty (the mark alone fills a quantum) and made of whole
    four-character quanta.
   */
  function AttachmentValue(info: FileInfo): (v: string)
    ensures |v| >= 4 && |v| % 4 == 0
  {
    Base64.Encode(Utf16.Encode(AttachedText(info)))
  }

  /**
    What is attached for a file above the size limit: its last 5000
    newline-separated pieces, which hold at most 4999 newlines and are the
    whole text when there are at most 5000 pieces.
   */
  lemma AttachedTextOfFile(info: FileInfo)
    ensures var t := AttachedText(info);
      (info.size > TruncateAboveBytes ==>
            && Lines.Split(t) == Lines.LastPieces(Lines.Split(info.text), TailPieces)
            && Lines.Newlines(t) <= TailPieces - 1
            && (t == info.text <==> |Lines.Split(info.text)| <= TailPieces))
  {
    if info.size > TruncateAboveBytes {
      Lines.LastLinesPieces(info.text, TailPieces);
      Lines.LastLinesNewlines(info.text, TailPieces);
      Lines.LastLinesWhole(info.text, TailPieces);
    }
  }

  /** An attachment value decodes, by base 64 and then UTF-16, to exactly the attached text. */
  lemma AttachmentValueDecodes(info: FileInfo)
    ensures Base64.Decode(AttachmentValue(info)) == Some(Utf16.Encode(AttachedText(info)))
    ensures Utf16.Decode(Utf16.Encode(AttachedText(info))) == Some(AttachedText(info))
  {
    Base64.DecodeEncode(Utf16.Encode(AttachedText(info)));
    Utf16.DecodeEncode(AttachedText(info));
  }

  /** Two files with the same attachment value have the same attached text. */
  lemma AttachmentValueInjective(a: FileInfo, b: FileInfo)
    ensures AttachmentValue(a) == AttachmentValue(b) ==> AttachedText(a) == AttachedText(b)
  {
    AttachmentValueDecodes(a);
    AttachmentValueDecodes(b);
  }

  /**
    The map built by visiting `paths` in order, starting from an empty map:
    each readable file sets the entry `name(file)` to `value` of its contents,
    replacing what an earlier file of the same name set; a file that cannot
    be sized or read is skipped.
   */
  function Collect(paths: seq<string>, files: map<string, FileInfo>,
                   name: string -> string, value: FileInfo -> string): map<string, string>
  {
    if paths == [] then map[]
    else
      var earlier := Collect(paths[..|paths| - 1], files, name, value);
      var file := paths[|paths| - 1];
      if file in files then earlier[name(file) := value(files[file])] else earlier
  }

  /**
    The attachments after visiting `paths`: each readable file under its
    attachment name, so every name is a bare file name.
   */
  function Attachments(paths: seq<string>, files: map<string, FileInfo>): (m: map<string, string>)
    ensures forall key :: key in m ==> '/' !in key
  {
    CollectKeysNamed(paths, files, AttachmentKey, AttachmentValue);
    Collect(paths, files, AttachmentKey, AttachmentValue)
  }

  /** Some readable file among `paths` is named `key`. */
  predicate Names(paths: seq<string>, files: map<string, FileInfo>, name: string -> string, key: string)
  {
    exists i :: 0 <= i < |paths| && paths[i] in files && name(paths[i]) == key
  }

  /** A file of `a + b` is a file of `a` or a file of `b`. */
  lemma NamesAppend(a: seq<string>, b: seq<string>, files: map<string, FileInfo>, name: string -> string, key: string)
    ensures Names(a + b, files, name, key) <==> Names(a, files, name, key) || Names(b, files, name, key)
  {
    var ab := a + b;
    if i :| 0 <= i < |ab| && ab[i] in files && name(ab[i]) == key {
      if i < |a| { assert ab[i] == a[i]; } else { assert ab[i] == b[i - |a|]; }
    }
    if i :| 0 <= i < |a| && a[i] in files && name(a[i]) == key {
      assert ab[i] == a[i];
    }
    if i :| 0 <= i < |b| && b[i] in files && name(b[i]) == key {
      assert ab[|a| + i] == b[i];
    }
  }

  /** `paths[i]` is the last readable file named `key`. */
  predicate LastSupplier(paths: seq<string>, files: map<string, FileInfo>, name: string -> string, i: int, key: string)
  {
    && 0 <= i < |paths|
    && paths[i] in files
    && name(paths[i]) == key
    && forall j :: i < j < |paths| && paths[j] in files ==> name(paths[j]) != key
  }

  /** There is at most one entry per visited file. */
  lemma {:induction false} CollectSize(paths: seq<string>, files: map<string, FileInfo>,
                                       name: string -> string, value: FileInfo -> string)
    ensures |Collect(paths, files, name, value)| <= |paths|
  {
    if paths != [] {
      CollectSize(paths[..|paths| - 1], files, name, value);
    }
  }

  /** The last readable file of a name supplies that name's entry. */
  lemma {:induction false} CollectOfLastSupplier(paths: seq<string>, files: map<string, FileInfo>,
                                                 name: string -> string, value: FileInfo -> string, i: int)
    requires 0 <= i < |paths| && LastSupplier(paths, files, name, i, name(paths[i]))
    ensures name(paths[i]) in Collect(paths, files, name, value)
    ensures Collect(paths, files, name, value)[name(paths[i])] == value(files[paths[i]])
  {
    if i < |paths| - 1 {
      var prefix := paths[..|paths| - 1];
      assert prefix[i] == paths[i];
      assert LastSupplier(prefix, files, name, i, name(paths[i])) by {
        forall j | i < j < |prefix| && prefix[j] in files
          ensures name(prefix[j]) != name(paths[i])
        {
          assert prefix[j] == paths[j];
        }
      }
      CollectOfLastSupplier(prefix, files, name, value, i);
    }
  }

  /** Every entry comes from a visited readable file of that name: the last one. */
  lemma {:induction false} CollectHasSupplier(paths: seq<string>, files: map<string, FileInfo>,
                                              name: string -> string, value: FileInfo -> string, key: string)
    requires key in Collect(paths, files, name, value)
    ensures exists i :: LastSupplier(paths, files, name, i, key)
                        && Collect(paths, files, name, value)[key] == value(files[paths[i]])
  {
    var n := |paths| - 1;
    var prefix := paths[..n];
    if paths[n] in files && name(paths[n]) == key {
      assert LastSupplier(paths, files, name, n, key);
    } else {
      CollectHasSupplier(prefix, files, name, value, key);
      var i :| LastSupplier(prefix, files, name, i, key)
               && Collect(prefix, files, name, value)[key] == value(files[prefix[i]]);
      assert prefix[i] == paths[i];
      assert LastSupplier(paths, files, name, i, key) by {
        forall j | i < j < |paths| && paths[j] in files
          ensures name(paths[j]) != key
        {
          if j < n { assert prefix[j] == paths[j]; }
        }
      }
    }
  }

  /** A name has an entry exactly when some visited readable file has that name. */
  lemma {:induction false} CollectDomain(paths: seq<string>, files: map<string, FileInfo>,
                      name: string -> string, value: FileInfo -> string, key: string)
    ensures key in Collect(paths, files, name, value) <==> Names(paths, files, name, key)
  {
    if key in Collect(paths, files, name, value) {
      CollectHasSupplier(paths, files, name, value, key);
    }
    if i :| 0 <= i < |paths| && paths[i] in files && name(paths[i]) == key {
      var last := i;
      while exists j :: last < j < |paths| && paths[j] in files && name(paths[j]) == key
        invariant i <= last < |paths| && paths[last] in files && name(paths[last]) == key
        decreases |paths| - last
      {
        var j :| last < j < |paths| && paths[j] in files && name(paths[j]) == key;
        last := j;
      }
      CollectOfLastSupplier(paths, files, name, value, last);
    }
  }

  /** Every entry is named after some visited readable file. */
  lemma CollectKeysNamed(paths: seq<string>, files: map<string, FileInfo>,
                         name: string -> string, value: FileInfo -> string)
    ensures forall key :: key in Collect(paths, files, name, value) ==> Names(paths, files, name, key)
  {
    forall key | key in Collect(paths, files, name, value)
      ensures Names(paths, files, name, key)
    {
      CollectDomain(paths, files, name, value, key);
    }
  }

  /** A file that cannot be read leaves the map as if it had not been matched. */
  lemma {:induction false} CollectSkipsUnreadable(before: seq<string>, file: string, after: seq<string>,
                                                  files: map<string, FileInfo>,
                                                  name: string -> string, value: FileInfo -> string)
    requires file !in files
    ensures Collect(before + [file] + after, files, name, value) == Collect(before + after, files, name, value)
  {
    if after == [] {
      assert (before + [file] + after)[..|before|] == before;
      assert before + after == before;
    } else {
      var n := |after| - 1;
      var with, without := before + [file] + after, before + after;
      assert with[..|with| - 1] == before + [file] + after[..n] && with[|with| - 1] == after[n];
      assert without[..|without| - 1] == before + after[..n] && without[|without| - 1] == after[n];
      CollectSkipsUnreadable(before, file, after[..n], files, name, value);
    }
  }

  /**
    The attachments of the visited files: at most one entry per file; an entry
    named `key` exactly when some readable file is named `key`, and then its
    value is the encoding of the last such file, which decodes to that file's
    attached text.
   */
  lemma AttachmentsEntries(paths: seq<string>, files: map<string, FileInfo>, key: string)
    ensures |Attachments(paths, files)| <= |paths|
    ensures key in Attachments(paths, files) <==> Names(paths, files, AttachmentKey, key)
    ensures key in Attachments(paths, files) ==>
      exists i :: LastSupplier(paths, files, AttachmentKey, i, key)
                  && Attachments(paths, files)[key] == AttachmentValue(files[paths[i]])
                  && Base64.Decode(Attachments(paths, files)[key]) == Some(Utf16.Encode(AttachedText(files[paths[i]])))
  {
    CollectSize(paths, files, AttachmentKey, AttachmentValue);
    CollectDomain(paths, files, AttachmentKey, AttachmentValue, key);
    if key in Attachments(paths, files) {
      CollectHasSupplier(paths, files, AttachmentKey, AttachmentValue, key);
      var i :| LastSupplier(paths, files, AttachmentKey, i, key)
               && Attachments(paths, files)[key] == AttachmentValue(files[paths[i]]);
      AttachmentValueDecodes(files[paths[i]]);
    }
  }

  /** The fixed opening of the e-mail body, up to the device name. */
  const BodyIntro: string :=
    "\nFind attached your requested diagnostics files. You can forward this message to info@neongecko.com "
    + "with a description of your issue for further support.\n\n-Neon\nDiagnostics sent from "

  /** The body text; the device name and the time are inputs. */
  function Body(deviceName: string, now: string): string
  {
    BodyIntro + deviceName + " on " + now
  }

  /** The e-mail the skill hands to its e-mail collaborator for recipient `email`. */
  function DiagnosticEmail(email: string, env: Environment): Email
  {
    Email(DiagnosticTitle, Body(env.deviceName, env.now), email, Attachments(MatchedPaths(env), env.files))
  }

  /** Visiting one more file updates the attachments by that file alone. */
  lemma AttachmentsStep(paths: seq<string>, file: string, files: map<string, FileInfo>)
    ensures Attachments(paths + [file], files) ==
      if file in files then Attachments(paths, files)[AttachmentKey(file) := AttachmentValue(files[file])]
      else Attachments(paths, files)
  {
  }

  /** Expanding one more pattern appends its matches. */
  lemma ExpandStep(patterns: seq<string>, i: nat, glob: string -> seq<string>)
    requires i < |patterns|
    ensures Expand(patterns[..i + 1], glob) == Expand(patterns[..i], glob) + glob(patterns[i])
  {
    assert patterns[..i + 1][..i] == patterns[..i];
  }

  /**
    Builds the diagnostic e-mail: visits the matches of the configuration
    pattern, then of the logs pattern, and attaches each readable file under
    its derived name. Nothing is written: the files are only read.
   */
  method SendDiagnosticEmail(email: string, env: Environment) returns (mail: Email)
    ensures mail == DiagnosticEmail(email, env)
  {
    var patterns := Patterns(env.configDir, env.logsDir);
    var attachments: map<string, string> := map[];
    for i := 0 to |patterns|
      invariant attachments == Attachments(Expand(patterns[..i], env.glob), env.files)
    {
      var matched := env.glob(patterns[i]);
      ghost var visited := Expand(patterns[..i], env.glob);
      assert visited + matched[..0] == visited;
      for j := 0 to |matched|
        invariant attachments == Attachments(visited + matched[..j], env.files)
      {
        var file := matched[j];
        AttachmentsStep(visited + matched[..j], file, env.files);
        assert visited + matched[..j + 1] == visited + matched[..j] + [file];
        // `getsize` and `read` succeed exactly for the files in `env.files`;
        // when either raises, the file is skipped and the map is unchanged.
        if file in env.files {
          var info := env.files[file];
          var key := AttachmentKey(file);
          if info.size > TruncateAboveBytes {
            var logLines := Lines.LastLines(info.text, TailPieces);
            attachments := attachments[key := Base64.Encode(Utf16.Encode(logLines))];
          } else {
            attachments := attachments[key := Base64.Encode(Utf16.Encode(info.text))];
          }
        }
      }
      ExpandStep(patterns, i, env.glob);
      assert matched[..|matched|] == matched;
    }
    assert patterns[..|patterns|] == patterns;
    mail := Email(DiagnosticTitle, Body(env.deviceName, env.now), email, attachments);
  }

  /**
    The attachments of the matched files: at most one per matched file, and
    one named `key` exactly when a readable file that the configuration
    `*.yml` pattern or the logs `*.log` pattern matched is named `key`.
   */
  lemma MatchedAttachments(env: Environment, key: string)
    ensures var attachments := Attachments(MatchedPaths(env), env.files);
      var yml := env.glob(env.configDir + "/*.yml");
      var log := env.glob(env.logsDir + "/*.log");
      && |attachments| <= |yml| + |log|
      && (key in attachments <==>
            Names(yml, env.files, AttachmentKey, key) || Names(log, env.files, AttachmentKey, key))
  {
    var yml := env.glob(env.configDir + "/*.yml");
    var log := env.glob(env.logsDir + "/*.log");
    var paths := MatchedPaths(env);
    CollectSize(paths, env.files, AttachmentKey, AttachmentValue);
    CollectDomain(paths, env.files, AttachmentKey, AttachmentValue, key);
    NamesAppend(yml, log, env.files, AttachmentKey, key);
  }

  /**
    The e-mail goes to the given address under the title "Diagnostic Info";
    it has at most one attachment per matched file, and an attachment named
    `key` exactly when a readable file that the configuration `*.yml` pattern
    or the logs `*.log` pattern matched is named `key`.
   */
  lemma DiagnosticEmailAttachments(email: string, env: Environment, key: string)
    ensures var mail := DiagnosticEmail(email, env);
      var yml := env.glob(env.configDir + "/*.yml");
      var log := env.glob(env.logsDir + "/*.log");
      && mail.title == "Diagnostic Info"
      && mail.recipient == email
      && |mail.attachments| <= |yml| + |log|
      && (key in mail.attachments <==>
            Names(yml, env.files, AttachmentKey, key) || Names(log, env.files, AttachmentKey, key))
  {
    MatchedAttachments(env, key);
  }

  /** The dialogs the intent handler can speak. */
  datatype Dialog = MobileComplete | OneMoment | Complete | EmailError | NoEmail

  /** One spoken dialog and whether it was spoken privately. */
  datatype Speech = Speech(dialog: Dialog, isPrivate: bool)

  /**
    What the handler learns from its host about one "contact support" request:
    whether it came from the mobile app, whether the skill runs in server mode,
    the user's e-mail preference (empty when unset) and whether the hesitation
    signal is set.
   */
  datatype Request = Request(fromMobile: bool, serverMode: bool, email: string, useHesitation: bool)

  /**
    What the handler does: whether it stops the mobile intent, what it speaks
    in order, and the address it attempts to send the diagnostic e-mail to, if
    any, whether or not that attempt raises (the e-mail itself is `DiagnosticEmail(address, env)`, built by
    `SendDiagnosticEmail`).
   */
  datatype Outcome = Outcome(stopsMobileIntent: bool, spoken: seq<Speech>, sendAttempt: Option<string>)

  /**
    The "contact support" intent. `sendRaises` tells whether sending the
    diagnostic e-mail raised.
   */
  function Troubleshoot(req: Request, sendRaises: bool): (o: Outcome)
    // Sending the diagnostic e-mail is attempted, once, exactly for a non-mobile
    // request outside server mode with an address, and to that address.
    ensures o.sendAttempt.Some? <==> !req.fromMobile && !req.serverMode && req.email != ""
    ensures o.sendAttempt.Some? ==> o.sendAttempt.value == req.email
    ensures o.stopsMobileIntent <==> req.fromMobile
    // Each dialog is spoken exactly in its own case; only "no.email" is spoken publicly.
    ensures forall sp :: sp in o.spoken ==> sp.isPrivate == (sp.dialog != NoEmail)
    ensures Speech(MobileComplete, true) in o.spoken <==> req.fromMobile
    ensures Speech(NoEmail, false) in o.spoken <==> !req.fromMobile && !req.serverMode && req.email == ""
    ensures Speech(OneMoment, true) in o.spoken <==> o.sendAttempt.Some? && req.useHesitation
    ensures Speech(Complete, true) in o.spoken <==> o.sendAttempt.Some? && !sendRaises
    ensures Speech(EmailError, true) in o.spoken <==> o.sendAttempt.Some? && sendRaises
    // Server mode speaks nothing; otherwise one notification, preceded at most by "one_moment".
    ensures o.spoken == [] <==> !req.fromMobile && req.serverMode
    ensures |o.spoken| <= 2
    ensures |o.spoken| == 2 ==> o.spoken[0] == Speech(OneMoment, true)
  {
    if req.fromMobile then
      Outcome(true, [Speech(MobileComplete, true)], None)
    else if req.serverMode then
      Outcome(false, [], None)
    else if req.email != "" then
      var hesitation := if req.useHesitation then [Speech(OneMoment, true)] else [];
      var result := if sendRaises then Speech(EmailError, true) else Speech(Complete, true);
      Outcome(false, hesitation + [result], Some(req.email))
    else
      Outcome(false, [Speech(NoEmail, false)], None)
  }
}
