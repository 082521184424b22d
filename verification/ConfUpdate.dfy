/**
  Replacing the manager configuration: back up, write, validate, drop the backup, and in a finally
  clause move a backup that is still there over the configuration. Any step may raise.
*/
module ConfUpdate {
  import opened Common

  /** GuardSarmError is caught by the function, anything else escapes it. */
  datatype Fault = NoFault | Caught(code: int) | Escapes

  /** How copying and writing end; a copy or a write that raises may leave anything behind. */
  datatype Copy = Copied | CopyRaised(ioError: bool, left: Option<string>)
  datatype Write = Written | WriteRaised(left: string)

  datatype Verdict = Valid | NotOk | CheckCaught(code: int) | CheckEscapes

  /** What the steps of one call do. */
  datatype Plan = Plan(xml: Fault, copy: Copy, write: Write, check: Verdict, removed: bool, moved: bool)

  datatype Files = Files(conf: string, backup: Option<string>)

  datatype Result = Affected | Failed(code: int) | Raised

  const EMPTY_OR_INVALID := 1125
  const BACKUP_FAILED := 1019
  const WRITE_FAILED := 1126

  /** The body of the try statement, with the except clause applied. */
  function Try(f: Files, text: string, plan: Plan): (Files, Result) {
    if text == "" then (f, Failed(EMPTY_OR_INVALID))
    else if plan.xml != NoFault then (f, if plan.xml.Caught? then Failed(plan.xml.code) else Raised)
    else if plan.copy.CopyRaised? then
      (f.(backup := plan.copy.left), if plan.copy.ioError then Failed(BACKUP_FAILED) else Raised)
    else if plan.write.WriteRaised? then (Files(plan.write.left, Some(f.conf)), Failed(WRITE_FAILED))
    else
      var written := Files(text, Some(f.conf));
      match plan.check
      case NotOk => (written, Failed(EMPTY_OR_INVALID))
      case CheckCaught(code) => (written, Failed(code))
      case CheckEscapes => (written, Raised)
      case Valid => if plan.removed then (Files(text, None), Affected) else (written, Raised)
  }

  function Update(f: Files, text: string, plan: Plan): (Files, Result) {
    var (g, result) := Try(f, text, plan);
    if g.backup == None then (g, result)
    else if plan.moved then (Files(g.backup.value, None), result)
    else (g, Raised)
  }

  class Disk {
    var conf: string
    var backup: Option<string>

    constructor (conf: string, backup: Option<string>)
      ensures this.conf == conf && this.backup == backup
    {
      this.conf, this.backup := conf, backup;
    }

    method CopyToBackup(copy: Copy) returns (raised: bool)
      modifies this`backup
      ensures raised == copy.CopyRaised?
      ensures backup == if copy.Copied? then Some(conf) else copy.left
    {
      raised := copy.CopyRaised?;
      backup := if raised then copy.left else Some(conf);
    }

    method WriteConf(text: string, write: Write) returns (raised: bool)
      modifies this`conf
      ensures raised == write.WriteRaised?
      ensures conf == if write.Written? then text else write.left
    {
      raised := write.WriteRaised?;
      conf := if raised then write.left else text;
    }

    method TryUpdate(text: string, plan: Plan) returns (result: Result)
      modifies this
      ensures (Files(conf, backup), result) == Try(old(Files(conf, backup)), text, plan)
    {
      if text == "" {
        return Failed(EMPTY_OR_INVALID);
      }
      if plan.xml != NoFault {
        return if plan.xml.Caught? then Failed(plan.xml.code) else Raised;
      }
      var raised := CopyToBackup(plan.copy);
      if raised {
        return if plan.copy.ioError then Failed(BACKUP_FAILED) else Raised;
      }
      raised := WriteConf(text, plan.write);
      if raised {
        return Failed(WRITE_FAILED);
      }
      if plan.check == NotOk {
        return Failed(EMPTY_OR_INVALID);
      }
      if plan.check.CheckCaught? {
        return Failed(plan.check.code);
      }
      if plan.check.CheckEscapes? {
        return Raised;
      }
      if backup != None {
        if !plan.removed {
          return Raised;
        }
        backup := None;
      }
      return Affected;
    }

    method UpdateOssecConf(text: string, plan: Plan) returns (result: Result)
      modifies this
      ensures (Files(conf, backup), result) == Update(old(Files(conf, backup)), text, plan)
    {
      result := TryUpdate(text, plan);
      if backup != None {
        if plan.moved {
          conf, backup := backup.value, None;
        } else {
          result := Raised;
        }
      }
    }
  }

  // ---------------------------------------------------------------- one call

  /** All or nothing: the new text when the node is reported as affected, the old text otherwise,
      and no backup file either way. */
  predicate AllOrNothing(before: Files, text: string, after: Files, result: Result) {
    after.conf == (if result == Affected then text else before.conf) && after.backup == None
  }

  /** A leftover at the backup path does no harm: there is none, or it is the old text and the move works. */
  predicate Harmless(left: Option<string>, conf: string, moved: bool) {
    left == None || (left.value == conf && moved)
  }

  /** The call gets as far as the new configuration being validated and the backup removed. */
  predicate Accepted(text: string, plan: Plan) {
    && text != "" && plan.xml == NoFault && plan.copy.Copied? && plan.write.Written?
    && plan.check.Valid? && plan.removed
  }

  /** The call is all or nothing exactly when what the finally clause finds is harmless: before the
      copy that is a backup file from earlier, after a copy that raised what the copy left, and
      after that the backup itself. */
  lemma AllOrNothingExactly(f: Files, text: string, plan: Plan)
    ensures var (g, result) := Update(f, text, plan);
            AllOrNothing(f, text, g, result) <==>
            if text == "" || plan.xml != NoFault then Harmless(f.backup, f.conf, plan.moved)
            else if plan.copy.CopyRaised? then Harmless(plan.copy.left, f.conf, plan.moved)
            else Accepted(text, plan) || plan.moved
    ensures Update(f, text, plan).1 == Affected <==> Accepted(text, plan)
  {
  }

  /** How a step of the call goes wrong, if it does: with an error that is reported under a code, or
      with an exception that the function lets through. */
  datatype Trouble = Fine | Reports(code: int) | LetsThrough

  /** Each step on its own, in the order in which they are taken: is there a text, is it XML, is it
      backed up, is it written, is it valid, is the backup removed. */
  function Troubles(text: string, plan: Plan): seq<Trouble> {
    [if text == "" then Reports(1125) else Fine,
     match plan.xml
     case NoFault => Fine
     case Caught(code) => Reports(code)
     case Escapes => LetsThrough,
     if plan.copy.Copied? then Fine else if plan.copy.ioError then Reports(1019) else LetsThrough,
     if plan.write.Written? then Fine else Reports(1126),
     match plan.check
     case Valid => Fine
     case NotOk => Reports(1125)
     case CheckCaught(code) => Reports(code)
     case CheckEscapes => LetsThrough,
     if plan.removed then Fine else LetsThrough]
  }

  /** The first trouble decides. */
  function FirstOf(troubles: seq<Trouble>): Result {
    if troubles == [] then Affected
    else
      match troubles[0]
      case Fine => FirstOf(troubles[1..])
      case Reports(code) => Failed(code)
      case LetsThrough => Raised
  }

  /** The result is that of the first step that goes wrong, unless a backup file is left that cannot be
      moved back, which raises whatever was to be reported. */
  lemma ResultExactly(f: Files, text: string, plan: Plan)
    ensures Update(f, text, plan).1
            == if Try(f, text, plan).0.backup != None && !plan.moved then Raised else FirstOf(Troubles(text, plan))
  {
    var troubles := Troubles(text, plan);
    FirstOfSix(troubles[0], troubles[1], troubles[2], troubles[3], troubles[4], troubles[5]);
  }

  lemma {:induction false} FirstOfSix(a: Trouble, b: Trouble, c: Trouble, d: Trouble, e: Trouble, f: Trouble)
    ensures FirstOf([a, b, c, d, e, f])
            == if !a.Fine? then FirstOf([a]) else if !b.Fine? then FirstOf([b]) else if !c.Fine? then FirstOf([c])
               else if !d.Fine? then FirstOf([d]) else if !e.Fine? then FirstOf([e]) else FirstOf([f])
  {
    FirstThen(a, [b, c, d, e, f]);
    FirstThen(b, [c, d, e, f]);
    FirstThen(c, [d, e, f]);
    FirstThen(d, [e, f]);
    FirstThen(e, [f]);
    assert [a] + [b, c, d, e, f] == [a, b, c, d, e, f] && [b] + [c, d, e, f] == [b, c, d, e, f];
    assert [c] + [d, e, f] == [c, d, e, f] && [d] + [e, f] == [d, e, f] && [e] + [f] == [e, f];
  }

  lemma {:induction false} FirstThen(x: Trouble, rest: seq<Trouble>)
    ensures FirstOf([x] + rest) == if x.Fine? then FirstOf(rest) else FirstOf([x])
  {
    assert ([x] + rest)[1..] == rest;
  }

  /** Once the backup is made the old text is never lost: unless the new one is accepted it is in
      place again, or, when it cannot be moved back, still in the backup file. */
  lemma OldTextKept(f: Files, text: string, plan: Plan)
    requires text != "" && plan.xml == NoFault && plan.copy.Copied?
    ensures var (g, result) := Update(f, text, plan);
            if Accepted(text, plan) then g == Files(text, None)
            else if plan.moved then g == Files(f.conf, None)
            else g == Files(if plan.write.Written? then text else plan.write.left, Some(f.conf)) && result == Raised
  {
  }

  /** A request without a text, refused as it should be, still puts an old backup file in place. */
  lemma OldBackupRestored()
    ensures var plan := Plan(NoFault, Copied, Written, Valid, true, true);
            Update(Files("current", Some("older")), "", plan) == (Files("older", None), Failed(EMPTY_OR_INVALID))
  {
  }

  /** A copy that stops half way is moved over the text it was to protect. */
  lemma HalfCopyRestored()
    ensures var plan := Plan(NoFault, CopyRaised(true, Some("curr")), Written, Valid, true, true);
            Update(Files("current", None), "new", plan) == (Files("curr", None), Failed(BACKUP_FAILED))
  {
  }

  // ---------------------------------------------------------------- sequences of calls

  datatype Call = Call(text: string, plan: Plan)

  /** Copies are atomic and moves work. */
  predicate Reliable(plan: Plan) {
    plan.moved && (plan.copy.CopyRaised? ==> plan.copy.left == None)
  }

  function AfterCalls(f: Files, calls: seq<Call>): Files
    decreases |calls|
  {
    if calls == [] then f else AfterCalls(Update(f, calls[0].text, calls[0].plan).0, calls[1..])
  }

  /** A register that takes the accepted texts and ignores the rest. */
  function Register(conf: string, calls: seq<Call>): string {
    if calls == [] then conf
    else
      var last := calls[|calls| - 1];
      if Accepted(last.text, last.plan) then last.text else Register(conf, calls[..|calls| - 1])
  }

  lemma {:induction false} RegisterFirst(conf: string, calls: seq<Call>)
    requires calls != []
    ensures Register(conf, calls)
            == Register(if Accepted(calls[0].text, calls[0].plan) then calls[0].text else conf, calls[1..])
  {
    var n := |calls| - 1;
    if n > 0 {
      RegisterFirst(conf, calls[..n]);
      assert calls[..n][1..] == calls[1..][..n - 1];
      assert calls[1..][n - 1] == calls[n];
    }
  }

  /** With reliable copies and moves and no backup file to begin with, the configuration is an
      atomic register: the last accepted text, however many calls failed and wherever they did. */
  lemma {:induction false} RefinesRegister(f: Files, calls: seq<Call>)
    requires f.backup == None
    requires forall i | 0 <= i < |calls| :: Reliable(calls[i].plan)
    ensures AfterCalls(f, calls) == Files(Register(f.conf, calls), None)
    decreases |calls|
  {
    if calls != [] {
      var (g, _) := Update(f, calls[0].text, calls[0].plan);
      AllOrNothingExactly(f, calls[0].text, calls[0].plan);
      RefinesRegister(g, calls[1..]);
      RegisterFirst(f.conf, calls);
    }
  }
}
