/** The result ledger of the modular pipeline: one exact record per task, and a
    reader that accepts nothing else (src/pipeline/modular_pipeline.cpp). */
module ModularLedger {
  import opened NumberTheory
  import opened MachineArithmetic
  import opened Decimal
  import opened DelimitedText
  import opened TextSearch
  import opened Wrappers

  datatype Task = Task(left: u64, right: u64, modulus: u64)

  /** The residue every backend must return for a task. */
  function Expected(t: Task): (r: u64)
    requires t.modulus > 0
    ensures r < t.modulus
  {
    ProductResidue(t);
    (t.left * t.right) % t.modulus
  }

  lemma ProductResidue(t: Task)
    requires t.modulus > 0
    ensures 0 <= (t.left * t.right) % t.modulus < t.modulus
  {
  }

  ghost predicate Usable(tasks: seq<Task>) {
    forall i :: 0 <= i < |tasks| ==> tasks[i].modulus > 0
  }

  // ----- records

  function RecordPrefix(index: nat, t: Task): string {
    "{\"index\":\"" + (ToDecimal(index) + ("\",\"left\":\"" + (ToDecimal(t.left)
      + ("\",\"modulus\":\"" + (ToDecimal(t.modulus) + "\",\"residue\":\"")))))
  }

  function RecordSuffix(t: Task): string {
    "\",\"right\":\"" + (ToDecimal(t.right) + "\"}")
  }

  /** A record without its newline. */
  function RecordLine(index: nat, t: Task, residue: u64): string {
    RecordPrefix(index, t) + (ToDecimal(residue) + RecordSuffix(t))
  }

  /** ledger_record */
  function LedgerRecord(index: nat, t: Task, residue: u64): string {
    RecordLine(index, t, residue) + "\n"
  }

  /** The exact records of the tasks from one index to another. */
  ghost function Records(tasks: seq<Task>, begin: nat, end: nat): string
    requires begin <= end <= |tasks| && Usable(tasks)
  {
    if begin == end then ""
    else Records(tasks, begin, end - 1) + LedgerRecord(end - 1, tasks[end - 1], Expected(tasks[end - 1]))
  }

  lemma {:induction false} RecordsJoin(tasks: seq<Task>, a: nat, b: nat, c: nat)
    requires a <= b <= c <= |tasks| && Usable(tasks)
    ensures Records(tasks, a, c) == Records(tasks, a, b) + Records(tasks, b, c)
    decreases c
  {
    hide LedgerRecord, Expected;
    if b < c {
      RecordsJoin(tasks, a, b, c - 1);
      Regroup(Records(tasks, a, b), Records(tasks, b, c - 1),
        LedgerRecord(c - 1, tasks[c - 1], Expected(tasks[c - 1])));
    } else {
      assert Records(tasks, a, b) + "" == Records(tasks, a, b);
    }
  }

  lemma DecimalLine(n: nat)
    ensures Without(ToDecimal(n), '\n')
  {
  }

  lemma LineHasNoNewline(index: nat, t: Task, residue: u64)
    ensures Without(RecordLine(index, t, residue), '\n')
  {
    DecimalLine(index);
    DecimalLine(t.left);
    DecimalLine(t.modulus);
    DecimalLine(residue);
    DecimalLine(t.right);
    hide ToDecimal;
  }

  // ----- reading

  /** The residue text between the expected parts of a line. */
  function ResidueText(line: string, prefix: string, suffix: string): Option<string> {
    if !StartsWith(line, prefix) || !EndsWith(line, suffix) || |line| <= |prefix| + |suffix| then None
    else Some(line[|prefix|..|line| - |suffix|])
  }

  lemma ResidueTextExact(line: string, prefix: string, suffix: string, text: string)
    requires text != ""
    ensures ResidueText(line, prefix, suffix) == Some(text) <==> line == prefix + (text + suffix)
  {
    if line == prefix + (text + suffix) {
      assert line[..|prefix|] == prefix && line[|line| - |suffix|..] == suffix;
      assert line[|prefix|..|line| - |suffix|] == text;
    }
    if ResidueText(line, prefix, suffix) == Some(text) {
      assert line == line[..|prefix|] + (line[|prefix|..|line| - |suffix|] + line[|line| - |suffix|..]);
    }
  }

  /** A line is accepted for a task exactly when it is its exact record. */
  lemma LineAccepted(line: string, index: nat, t: Task)
    requires t.modulus > 0
    ensures var text := ResidueText(line, RecordPrefix(index, t), RecordSuffix(t));
      (text.Some? && ParseCanonicalU64(text.value) == Some(Expected(t))) <==> line == RecordLine(index, t, Expected(t))
  {
    var text := ResidueText(line, RecordPrefix(index, t), RecordSuffix(t));
    hide RecordPrefix, RecordSuffix, ResidueText, Expected;
    ResidueTextExact(line, RecordPrefix(index, t), RecordSuffix(t), ToDecimal(Expected(t)));
    if text.Some? {
      ParseCanonicalExact(text.value, Expected(t));
    }
    ParseCanonicalExact(ToDecimal(Expected(t)), Expected(t));
  }

  /** The residue of a task by the portable reference multiplication. */
  method ReferenceResidue(t: Task) returns (r: u64)
    requires t.modulus > 0
    ensures r == Expected(t)
  {
    var product := MultiplyModPortable(t.left, t.right, t.modulus);
    r := product.value;
  }

  lemma NextRecord(tasks: seq<Task>, content: string, position: nat, index: nat, newline: nat)
    requires Usable(tasks) && index < |tasks| && position <= newline < |content|
    requires content[newline] == '\n' && Without(content[position..newline], '\n')
    ensures content[..position] == Records(tasks, 0, index)
      && content[position..newline] == RecordLine(index, tasks[index], Expected(tasks[index]))
      ==> content[..newline + 1] == Records(tasks, 0, index + 1)
  {
    if content[..position] == Records(tasks, 0, index)
      && content[position..newline] == RecordLine(index, tasks[index], Expected(tasks[index])) {
      assert content[..newline + 1] == content[..position] + (content[position..newline] + "\n");
    }
  }

  lemma FindLine(before: string, line: string, rest: string)
    requires Without(line, '\n')
    ensures var content := (before + (line + "\n")) + rest; var end := |before| + |line|;
      end < |content| && Find(content, '\n', |before|) == end && content[|before|..end] == line
  {
    var content := (before + (line + "\n")) + rest;
    assert forall j :: |before| <= j < |before| + |line| ==> content[j] == line[j - |before|];
    FindUnique(content, '\n', |before|, |before| + |line|);
  }

  /** The line at a record's place, when the content begins with one more exact record. */
  lemma LineOfRecord(tasks: seq<Task>, content: string, index: nat, committed: nat)
    requires Usable(tasks) && index < committed <= |tasks| && content == Records(tasks, 0, committed)
    ensures var position := |Records(tasks, 0, index)|; var line :=
      RecordLine(index, tasks[index], Expected(tasks[index]));
      && position + |line| < |content| && Find(content, '\n', position) == position + |line|
      && content[position..position + |line|] == line && |Records(tasks, 0, index + 1)| == position + |line| + 1
  {
    hide RecordLine, Expected;
    var before, line := Records(tasks, 0, index), RecordLine(index, tasks[index], Expected(tasks[index]));
    RecordsJoin(tasks, 0, index + 1, committed);
    LineHasNoNewline(index, tasks[index], Expected(tasks[index]));
    assert Records(tasks, 0, index + 1) == before + (line + "\n");
    FindLine(before, line, Records(tasks, index + 1, committed));
    hide Records, Without;
  }

  // ----- restoring

  /** restore_ledger: succeeds exactly when the content is the concatenation of the
      exact records of the committed tasks, and then yields their residues. */
  method RestoreLedger(tasks: seq<Task>, content: string, committed: nat) returns (r: Result<seq<u64>, Exception>)
    requires Usable(tasks) && committed <= |tasks|
    ensures r.Ok? <==> content == Records(tasks, 0, committed)
    ensures r.Ok? ==> |r.value| == committed && forall i :: 0 <= i < committed ==> r.value[i] == Expected(tasks[i])
    ensures r.Err? ==> r.error == RuntimeError
  {
    hide Records, RecordLine, RecordPrefix, RecordSuffix, Expected, ResidueText, Find;
    var residues: seq<u64> := [];
    var position := 0;
    RestoreStart(tasks, content);
    while |residues| < committed
      invariant |residues| <= committed && position <= |content|
      invariant content[..position] == Records(tasks, 0, |residues|)
      invariant forall i :: 0 <= i < |residues| ==> residues[i] == Expected(tasks[i])
    {
      var index := |residues|;
      var newline := Find(content, '\n', position);
      RecordMismatch(tasks, content, position, index, committed, newline);
      if newline == |content| {
        return Err(RuntimeError);
      }
      var task := tasks[index];
      var line := content[position..newline];
      LineAccepted(line, index, task);
      var text := ResidueText(line, RecordPrefix(index, task), RecordSuffix(task));
      if text.None? {
        return Err(RuntimeError);
      }
      var residue := ParseCanonicalU64(text.value);
      var expected := ReferenceResidue(task);
      if residue != Some(expected) {
        return Err(RuntimeError);
      }
      NextRecord(tasks, content, position, index, newline);
      residues := residues + [expected];
      position := newline + 1;
    }
    assert content[..|content|] == content;
    if position != |content| {
      return Err(RuntimeError);
    }
    return Ok(residues);
  }

  lemma RestoreStart(tasks: seq<Task>, content: string)
    requires Usable(tasks)
    ensures content[..0] == Records(tasks, 0, 0)
  {
  }

  /** If the line at this place is not the exact record, the content is not the ledger. */
  lemma RecordMismatch(tasks: seq<Task>, content: string, position: nat, index: nat, committed: nat, newline: nat)
    requires Usable(tasks) && index < committed <= |tasks| && position <= |content|
      && newline == Find(content, '\n', position)
    requires content[..position] == Records(tasks, 0, index)
    ensures content == Records(tasks, 0, committed) ==>
      newline < |content| && content[position..newline] == RecordLine(index, tasks[index], Expected(tasks[index]))
    ensures newline < |content| ==> Without(content[position..newline], '\n')
  {
    hide RecordLine, Expected, Records;
    if content == Records(tasks, 0, committed) {
      LineOfRecord(tasks, content, index, committed);
      assert position == |Records(tasks, 0, index)|;
    }
  }
}
