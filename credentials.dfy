/** The credential file shared by both listeners: how one line is read, what
    the map and the `passwordSet` flag are after the whole file, and the
    permission gate. The loops that build them are in the listener modules. */
module Credentials {
  import opened Optional
  import opened GoStrings

  /** `os.FileMode` as reported by `f.Stat()`. */
  type FileMode = bv32

  /** What the file-system calls report about the credential file: `Absent`
      when `os.Stat` fails; otherwise the result of `ioutil.ReadFile`
      (`None` on error) and the mode from `os.Open` + `f.Stat` (`None` when
      either fails). */
  datatype CredentialFile = Absent | Present(contents: Option<string>, mode: Option<FileMode>)

  /** The `v1` route group: plain, or wrapped in `gin.BasicAuth(accounts)`. */
  datatype V1Group = Unprotected | BasicAuth(accounts: map<string, string>)

  /** How startup ends: the process exits with `code`, or the server is set
      up with the loaded credentials, the flag, the `v1` group and the
      indices of the lines reported as skipped. */
  datatype Boot =
    | Exit(code: int)
    | Serve(credentials: map<string, string>, passwordSet: bool, v1: V1Group, warnings: seq<nat>)

  /** Exit code of `os.Exit(42)` on an unreadable or unprotected file. */
  const RefusedExit := 42
  /** Exit code of `log.Fatal`. */
  const FatalExit := 1

  /** `mode&077 == 0`: no permission bit for group or others. */
  predicate OwnerOnly(mode: FileMode)
  {
    mode & 0x3F == 0
  }

  /** 0600 passes the gate, 0644 and 0640 do not, 0700 does. */
  lemma OwnerOnlyExamples()
    ensures OwnerOnly(0x180) && !OwnerOnly(0x1A4) && !OwnerOnly(0x1A0) && OwnerOnly(0x1C0)
  {
  }

  /** The lines of the file, `strings.Split(text, "\n")`. */
  function Lines(text: string): seq<string>
  {
    Split(text, '\n')
  }

  /** What the loader makes of one line. */
  datatype LineKind = Credential(uid: string, password: string) | Blank | Malformed

  /** A line is a credential when it splits on ':' into exactly two fields,
      that is when it holds exactly one ':'; other non-empty lines are
      malformed, and the empty line is blank. */
  function Classify(line: string): (k: LineKind)
    ensures k.Credential? <==> Count(line, ':') == 1
    ensures k.Blank? <==> line == []
  {
    var fields := Split(line, ':');
    if |fields| == 2 then Credential(TrimSpace(fields[0]), TrimSpace(fields[1]))
    else if |line| > 0 then Malformed
    else Blank
  }

  /** The uid and password of a credential line are the text before and after
      its one ':', each trimmed of surrounding white space. */
  lemma CredentialFields(line: string, i: nat)
    requires i < |line| && line[i] == ':' && Count(line, ':') == 1
    ensures Classify(line) == Credential(TrimSpace(line[..i]), TrimSpace(line[i + 1..]))
  {
    var a, b := line[..i], line[i + 1..];
    assert line == a + [':'] + b;
    CountAppend(a + [':'], b, ':');
    CountAppend(a, [':'], ':');
    SplitAtFirst(a, ':', b);
    SplitNoSeparator(b, ':');
  }

  /** How the loader classifies each line of the file, in file order. */
  function Kinds(lines: seq<string>): (ks: seq<LineKind>)
  {
    seq(|lines|, i requires 0 <= i < |lines| => Classify(lines[i]))
  }

  /** A classified line that defines `uid`. */
  predicate Defines(k: LineKind, uid: string)
  {
    k.Credential? && k.uid == uid
  }

  /** One more line adds its classification at the end. */
  lemma KindsSnoc(lines: seq<string>, i: nat)
    requires i < |lines|
    ensures Kinds(lines[..i + 1]) == Kinds(lines[..i]) + [Classify(lines[i])]
  {
  }

  /** Some line is a credential. */
  predicate AnyCredential(ks: seq<LineKind>)
  {
    exists i :: 0 <= i < |ks| && ks[i].Credential?
  }

  /** The map after one more line: a credential (re)defines its uid. */
  function Insert(m: map<string, string>, k: LineKind): map<string, string>
  {
    if k.Credential? then m[k.uid := k.password] else m
  }

  /** The map after the loader has read the classified lines in order. */
  function CredentialMap(ks: seq<LineKind>): map<string, string>
  {
    if ks == [] then map[]
    else Insert(CredentialMap(ks[..|ks| - 1]), ks[|ks| - 1])
  }

  /** Reading one more line: the map takes one step. */
  lemma CredentialMapSnoc(ks: seq<LineKind>, k: LineKind)
    ensures CredentialMap(ks + [k]) == Insert(CredentialMap(ks), k)
  {
    assert (ks + [k])[..|ks|] == ks;
  }

  /** Reading one more line: the flag is raised by a credential and stays. */
  lemma AnyCredentialSnoc(ks: seq<LineKind>, k: LineKind)
    ensures AnyCredential(ks + [k]) <==> AnyCredential(ks) || k.Credential?
  {
    if AnyCredential(ks) {
      var i :| 0 <= i < |ks| && ks[i].Credential?;
      assert (ks + [k])[i].Credential?;
    }
    if AnyCredential(ks + [k]) && !k.Credential? {
      var i :| 0 <= i < |ks + [k]| && (ks + [k])[i].Credential?;
      assert i != |ks|;
      assert ks[i] == (ks + [k])[i];
    }
    if k.Credential? {
      assert (ks + [k])[|ks|].Credential?;
    }
  }

  /** The indices of the lines reported as skipped, in file order: only
      malformed lines, each once. */
  function Skipped(ks: seq<LineKind>): (r: seq<nat>)
    ensures forall k :: 0 <= k < |r| ==> r[k] < |ks| && ks[r[k]].Malformed?
    ensures forall k, l :: 0 <= k < l < |r| ==> r[k] < r[l]
  {
    if ks == [] then []
    else
      var r := Skipped(ks[..|ks| - 1]);
      if ks[|ks| - 1].Malformed? then r + [|ks| - 1] else r
  }

  /** Reading one more line: a malformed line is reported. */
  lemma SkippedSnoc(ks: seq<LineKind>, k: LineKind)
    ensures Skipped(ks + [k]) == Skipped(ks) + (if k.Malformed? then [|ks|] else [])
  {
    assert (ks + [k])[..|ks|] == ks;
  }

  /** Every malformed line is reported; blank lines and credentials are not. */
  lemma {:induction false} SkippedComplete(ks: seq<LineKind>, i: nat)
    requires i < |ks|
    ensures i in Skipped(ks) <==> ks[i].Malformed?
  {
    var init := ks[..|ks| - 1];
    if i < |ks| - 1 {
      SkippedComplete(init, i);
      assert init[i] == ks[i];
    }
  }

  /** A uid is in the map exactly when some line of the file is a credential
      for it. */
  lemma {:induction false} CredentialKeys(ks: seq<LineKind>, uid: string)
    ensures uid in CredentialMap(ks) <==> exists i :: 0 <= i < |ks| && Defines(ks[i], uid)
  {
    if ks != [] {
      var init := ks[..|ks| - 1];
      CredentialKeys(init, uid);
      if uid in CredentialMap(ks) && !Defines(ks[|ks| - 1], uid) {
        var i :| 0 <= i < |init| && Defines(init[i], uid);
        assert ks[i] == init[i];
      }
      if exists i :: 0 <= i < |ks| && Defines(ks[i], uid) {
        var i :| 0 <= i < |ks| && Defines(ks[i], uid);
        if i < |init| {
          assert Defines(init[i], uid);
        }
      }
    }
  }

  /** A uid defined on several lines keeps the password of the last one. */
  lemma {:induction false} LastCredentialWins(ks: seq<LineKind>, i: nat, uid: string, password: string)
    requires i < |ks| && ks[i] == Credential(uid, password)
    requires forall j :: i < j < |ks| ==> !Defines(ks[j], uid)
    ensures uid in CredentialMap(ks) && CredentialMap(ks)[uid] == password
  {
    var init := ks[..|ks| - 1];
    if i < |ks| - 1 {
      assert forall j :: i < j < |init| ==> init[j] == ks[j];
      LastCredentialWins(init, i, uid, password);
    }
  }

  /** The flag is set exactly when the map is not empty. */
  lemma {:induction false} AnyCredentialIffNonEmpty(ks: seq<LineKind>)
    ensures AnyCredential(ks) <==> CredentialMap(ks) != map[]
  {
    if ks != [] {
      var init, last := ks[..|ks| - 1], ks[|ks| - 1];
      AnyCredentialIffNonEmpty(init);
      if AnyCredential(init) {
        var i :| 0 <= i < |init| && init[i].Credential?;
        assert ks[i].Credential?;
      }
      if AnyCredential(ks) && !last.Credential? {
        var i :| 0 <= i < |ks| && ks[i].Credential?;
        assert init[i].Credential?;
      }
      if last.Credential? {
        assert last.uid in CredentialMap(ks);
      }
    }
  }

  /** Concrete file: a later line for `alice` replaces her first password,
      the blank line is silent and only the malformed line is reported. */
  lemma Example()
    ensures var ks := [Credential("alice", "one"), Credential("bob", "two"), Blank, Malformed, Credential("alice", "three")];
      && CredentialMap(ks) == map["alice" := "three", "bob" := "two"]
      && Skipped(ks) == [3]
  {
    var ks := [Credential("alice", "one"), Credential("bob", "two"), Blank, Malformed, Credential("alice", "three")];
    assert ks[..1][..0] == [];
    assert CredentialMap(ks[..1]) == map["alice" := "one"] && Skipped(ks[..1]) == [];
    assert ks[..2][..1] == ks[..1];
    assert CredentialMap(ks[..2]) == map["alice" := "one", "bob" := "two"] && Skipped(ks[..2]) == [];
    assert ks[..3][..2] == ks[..2];
    assert CredentialMap(ks[..3]) == map["alice" := "one", "bob" := "two"] && Skipped(ks[..3]) == [];
    assert ks[..4][..3] == ks[..3];
    assert CredentialMap(ks[..4]) == map["alice" := "one", "bob" := "two"] && Skipped(ks[..4]) == [3];
    assert ks[..4] == ks[..|ks| - 1];
  }
}
