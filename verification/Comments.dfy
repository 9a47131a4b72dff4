/**
 The comment remover for C sources. It overwrites comments with spaces in the
 buffer it is scanning; the lexer it must agree with reads the original text.
 */
module Comments {
  import opened Common

  /** Where the scan is: in code, in a literal or in a comment that began at `start`. */
  datatype Mode = Code | Single(start: nat) | Double(start: nat) | Line(start: nat) | Block(start: nat)

  /** Where one step leads; it turns the positions from `lo` to `hi` into spaces. */
  datatype Move = Move(next: nat, mode: Mode, lo: int, hi: int)

  /** The number of backslashes that end just before `k` is odd. */
  predicate OddBackslashes(s: seq<char>, k: nat)
    requires k <= |s|
  {
    k > 0 && s[k - 1] == '\\' && !OddBackslashes(s, k - 1)
  }

  function Quote(s: seq<char>, i: nat, m: Mode): Mode
    requires i < |s|
  {
    match m
    case Code => Single(i)
    case Single(st) => if i == st + 2 && s[st + 1] == '\\' then m else Code
    case _ => m
  }

  function DoubleQuote(s: seq<char>, i: nat, m: Mode): Mode
    requires i < |s|
  {
    match m
    case Code => Double(i)
    case Double(_) => if OddBackslashes(s, i) then m else Code
    case _ => m
  }

  /** One step of the lexer, on the original text. */
  function Step(s: seq<char>, i: nat, m: Mode): Move
    requires i < |s|
  {
    if s[i] == '\'' then Move(i + 1, Quote(s, i, m), 0, 0)
    else if s[i] == '"' then Move(i + 1, DoubleQuote(s, i, m), 0, 0)
    else if s[i] == '/' && m == Code && CharAt(s, i + 1) == '/' then Move(i + 2, Line(i), 0, 0)
    else if s[i] == '/' && m == Code && CharAt(s, i + 1) == '*' then Move(i + 2, Block(i), 0, 0)
    else if s[i] == '*' && m.Block? && CharAt(s, i + 1) == '/' then Move(i + 2, Code, m.start, i + 2)
    else if s[i] == '\n' && m.Line? then
      Move(i + 1, Code, m.start, if i > 0 && s[i - 1] == '\r' then i - 1 else i)
    else Move(i + 1, m, 0, 0)
  }

  /** Position `k` is turned into a space from here on. */
  predicate Erases(s: seq<char>, i: nat, m: Mode, k: nat)
    decreases |s| - i
  {
    if i >= |s| then m.Line? && m.start <= k < |s|
    else
      var mv := Step(s, i, m);
      mv.lo <= k < mv.hi || Erases(s, mv.next, mv.mode, k)
  }

  /** The text without its comments. */
  function Clean(s: seq<char>): seq<char> {
    seq(|s|, k requires 0 <= k < |s| => if Erases(s, 0, Code, k) then ' ' else s[k])
  }

  /** Nothing before this position will be looked at or changed any more. */
  function Low(m: Mode, i: nat): nat {
    if m == Code then i else m.start
  }

  ghost predicate ModeOk(s: seq<char>, i: nat, m: Mode) {
    && i <= |s|
    && match m
       case Code => true
       case Single(st) => st < i && s[st] == '\''
       case Double(st) => st < i && s[st] == '"'
       case Line(st) => st + 2 <= i
       case Block(st) => st + 2 <= i
  }

  lemma StepOk(s: seq<char>, i: nat, m: Mode)
    requires i < |s| && ModeOk(s, i, m)
    ensures ModeOk(s, Step(s, i, m).next, Step(s, i, m).mode)
  {
  }

  lemma {:induction false} ErasesLow(s: seq<char>, i: nat, m: Mode, k: nat)
    requires ModeOk(s, i, m) && Erases(s, i, m, k)
    ensures Low(m, i) <= k < |s|
    decreases |s| - i
  {
    if i < |s| {
      StepOk(s, i, m);
      var mv := Step(s, i, m);
      if !(mv.lo <= k < mv.hi) {
        ErasesLow(s, mv.next, mv.mode, k);
      }
    }
  }

  // ----- the scan in place

  const NULL := -1

  /** The four pointers of `AnnotationFlag`, as offsets. */
  class Flags {
    var single: int
    var dbl: int
    var line: int
    var block: int

    constructor ()
      ensures single == dbl == line == block == NULL
    {
      single, dbl, line, block := NULL, NULL, NULL, NULL;
    }

    /** At most one of the flags is set, and it says what the mode is. */
    ghost predicate Shows(m: Mode)
      reads this
    {
      && single == (if m.Single? then m.start else NULL)
      && dbl == (if m.Double? then m.start else NULL)
      && line == (if m.Line? then m.start else NULL)
      && block == (if m.Block? then m.start else NULL)
    }
  }

  /**
   The buffer when the scan is at `i` in mode `m`: finished before `Low`, and
   still the original text from there on.
   */
  ghost predicate Synced(s: seq<char>, buf: array<char>, i: nat, m: Mode)
    reads buf
  {
    && ModeOk(s, i, m)
    && |s| < buf.Length && buf[|s|] != '/' && buf[|s|] != '*'
    && (forall k :: 0 <= k < Low(m, i) ==> buf[k] == Clean(s)[k])
    && (forall k :: Low(m, i) <= k < |s| ==> buf[k] == s[k])
    && (forall k :: Low(m, i) <= k < |s| ==> (Erases(s, 0, Code, k) <==> Erases(s, i, m, k)))
  }

  lemma ErasesStep(s: seq<char>, i: nat, m: Mode, k: nat)
    requires i < |s|
    ensures var mv := Step(s, i, m);
            Erases(s, i, m, k) <==> mv.lo <= k < mv.hi || Erases(s, mv.next, mv.mode, k)
  {
  }

  lemma LowGrows(s: seq<char>, i: nat, m: Mode)
    requires i < |s| && ModeOk(s, i, m)
    ensures Low(m, i) <= Low(Step(s, i, m).mode, Step(s, i, m).next)
  {
  }

  /** A step that erases nothing. */
  lemma KeepSynced(s: seq<char>, buf: array<char>, i: nat, m: Mode)
    requires Synced(s, buf, i, m) && i < |s| && Step(s, i, m).lo >= Step(s, i, m).hi
    ensures Synced(s, buf, Step(s, i, m).next, Step(s, i, m).mode)
  {
    StepOk(s, i, m);
    LowGrows(s, i, m);
    hide Erases, Step, ModeOk;
    var mv := Step(s, i, m);
    forall k | Low(m, i) <= k < |s|
      ensures Erases(s, i, m, k) <==> Erases(s, mv.next, mv.mode, k)
      ensures k < Low(mv.mode, mv.next) ==> !Erases(s, mv.next, mv.mode, k)
    {
      ErasesStep(s, i, m, k);
      if Erases(s, mv.next, mv.mode, k) {
        ErasesLow(s, mv.next, mv.mode, k);
      }
    }
  }

  /** `memset(buf + lo, ' ', hi - lo)` */
  method Memset(buf: array<char>, lo: nat, hi: nat)
    requires lo <= hi <= buf.Length
    modifies buf
    ensures forall k :: 0 <= k < buf.Length ==> buf[k] == if lo <= k < hi then ' ' else old(buf[k])
  {
    forall k | lo <= k < hi {
      buf[k] := ' ';
    }
  }

  /** `slash_is_single`: an odd number of backslashes ends just before `k`. */
  method SlashIsSingle(ghost s: seq<char>, buf: array<char>, ghost st: nat, k: nat) returns (odd: bool)
    requires st < k <= |s| < buf.Length && s[st] != '\\'
    requires forall j :: st <= j < k ==> buf[j] == s[j]
    ensures odd == OddBackslashes(s, k)
  {
    var iter, cnt := k - 1, 0;
    while buf[iter] == '\\'
      invariant st <= iter < k && cnt == k - 1 - iter
      invariant OddBackslashes(s, k) == (OddBackslashes(s, iter + 1) == (cnt % 2 == 0))
      decreases iter
    {
      iter, cnt := iter - 1, cnt + 1;
    }
    odd := cnt % 2 == 1;
  }

  /** A step that erases a comment, once the comment has been overwritten. */
  lemma EraseSynced(s: seq<char>, buf: array<char>, i: nat, m: Mode)
    requires ModeOk(s, i, m) && i < |s| && Step(s, i, m).mode == Code
    requires m.Line? || m.Block?
    requires Step(s, i, m).lo == m.start
    requires |s| < buf.Length && buf[|s|] != '/' && buf[|s|] != '*'
    requires forall k :: 0 <= k < m.start ==> buf[k] == Clean(s)[k]
    requires forall k :: m.start <= k < |s| ==> buf[k] == if k < Step(s, i, m).hi then ' ' else s[k]
    requires forall k :: m.start <= k < |s| ==> (Erases(s, 0, Code, k) <==> Erases(s, i, m, k))
    ensures Synced(s, buf, Step(s, i, m).next, Code)
  {
    StepOk(s, i, m);
    var mv := Step(s, i, m);
    assert m.start <= mv.next && mv.hi <= mv.next;
    hide Erases, Step, ModeOk;
    forall k | m.start <= k < |s|
      ensures Erases(s, i, m, k) <==> k < mv.hi || Erases(s, mv.next, Code, k)
      ensures k < mv.next ==> !Erases(s, mv.next, Code, k)
    {
      ErasesStep(s, i, m, k);
      if Erases(s, mv.next, Code, k) {
        ErasesLow(s, mv.next, Code, k);
      }
    }
  }

  /** Every handler takes the lexer's step and returns the distance to advance. */
  ghost predicate Stepped(s: seq<char>, buf: array<char>, flag: Flags, i: nat, m: Mode, d: nat)
    reads buf, flag
    requires i < |s|
  {
    var mv := Step(s, i, m);
    i + d == mv.next && flag.Shows(mv.mode) && Synced(s, buf, mv.next, mv.mode)
  }

  method SingleQuoteProc(buf: array<char>, offset: nat, flag: Flags, ghost s: seq<char>, ghost m: Mode) returns (d: nat)
    requires flag.Shows(m) && Synced(s, buf, offset, m) && offset < |s| && buf[offset] == '\''
    modifies flag
    ensures Stepped(s, buf, flag, offset, m, d)
  {
    KeepSynced(s, buf, offset, m);
    hide Erases, Clean;
    d := 1;
    if flag.dbl != NULL || flag.line != NULL || flag.block != NULL {
      return;
    }
    if flag.single == NULL {
      flag.single := offset;
    } else {
      var len := offset - flag.single;
      if len == 2 && buf[flag.single + 1] == '\\' {
        return;
      }
      flag.single := NULL;
    }
  }

  method DoubleQuoteProc(buf: array<char>, offset: nat, flag: Flags, ghost s: seq<char>, ghost m: Mode) returns (d: nat)
    requires flag.Shows(m) && Synced(s, buf, offset, m) && offset < |s| && buf[offset] == '"'
    modifies flag
    ensures Stepped(s, buf, flag, offset, m, d)
  {
    KeepSynced(s, buf, offset, m);
    hide Erases, Clean;
    d := 1;
    if flag.single != NULL || flag.line != NULL || flag.block != NULL {
      return;
    }
    if flag.dbl == NULL {
      flag.dbl := offset;
    } else {
      var odd := SlashIsSingle(s, buf, m.start, offset);
      if odd {
        return;
      }
      flag.dbl := NULL;
    }
  }

  method SlashProc(buf: array<char>, offset: nat, flag: Flags, ghost s: seq<char>, ghost m: Mode) returns (d: nat)
    requires flag.Shows(m) && Synced(s, buf, offset, m) && offset < |s| && buf[offset] == '/'
    modifies flag
    ensures Stepped(s, buf, flag, offset, m, d)
  {
    KeepSynced(s, buf, offset, m);
    hide Erases, Clean;
    if flag.single != NULL || flag.dbl != NULL || flag.line != NULL || flag.block != NULL {
      return 1;
    }
    if buf[offset + 1] == '/' {
      flag.line := offset;
      return 2;
    } else if buf[offset + 1] == '*' {
      flag.block := offset;
      return 2;
    }
    return 1;
  }

  method StarProc(buf: array<char>, offset: nat, flag: Flags, ghost s: seq<char>, ghost m: Mode) returns (d: nat)
    requires flag.Shows(m) && Synced(s, buf, offset, m) && offset < |s| && buf[offset] == '*'
    modifies buf, flag
    ensures Stepped(s, buf, flag, offset, m, d)
    ensures forall k :: |s| <= k < buf.Length ==> buf[k] == old(buf[k])
  {
    if flag.single != NULL || flag.dbl != NULL || flag.line != NULL || flag.block == NULL || buf[offset + 1] != '/' {
      KeepSynced(s, buf, offset, m);
      return 1;
    }
    Memset(buf, flag.block, offset + 2);
    EraseSynced(s, buf, offset, m);
    flag.block := NULL;
    return 2;
  }

  method EndProc(buf: array<char>, offset: nat, flag: Flags, ghost s: seq<char>, ghost m: Mode) returns (d: nat)
    requires flag.Shows(m) && Synced(s, buf, offset, m) && offset < |s| && buf[offset] == '\n'
    modifies buf, flag
    ensures Stepped(s, buf, flag, offset, m, d)
    ensures forall k :: |s| <= k < buf.Length ==> buf[k] == old(buf[k])
  {
    if flag.line == NULL {
      KeepSynced(s, buf, offset, m);
      return 1;
    }
    var c := buf[offset - 1];
    Memset(buf, flag.line, if c == '\r' then offset - 1 else offset);
    EraseSynced(s, buf, offset, m);
    flag.line := NULL;
    return 1;
  }

  /** `find_proc_func` and the call, or a step of one. */
  method Dispatch(buf: array<char>, p: nat, flag: Flags, ghost s: seq<char>, ghost m: Mode) returns (d: nat)
    requires flag.Shows(m) && Synced(s, buf, p, m) && p < |s|
    modifies buf, flag
    ensures Stepped(s, buf, flag, p, m, d)
    ensures 1 <= d && p + d <= |s|
    ensures forall k :: |s| <= k < buf.Length ==> buf[k] == old(buf[k])
  {
    assert buf[p] == s[p];
    match buf[p] {
      case '\'' => d := SingleQuoteProc(buf, p, flag, s, m);
      case '"' => d := DoubleQuoteProc(buf, p, flag, s, m);
      case '/' => d := SlashProc(buf, p, flag, s, m);
      case '*' => d := StarProc(buf, p, flag, s, m);
      case '\n' => d := EndProc(buf, p, flag, s, m);
      case _ =>
        KeepSynced(s, buf, p, m);
        d := 1;
    }
  }

  lemma StartSynced(s: seq<char>, buf: array<char>)
    requires |s| < buf.Length && buf[|s|] != '/' && buf[|s|] != '*' && s == buf[..|s|]
    ensures Synced(s, buf, 0, Code)
  {
  }

  lemma EndClean(s: seq<char>, buf: array<char>, m: Mode)
    requires Synced(s, buf, |s|, m)
    ensures forall k :: Low(m, |s|) <= k < |s| ==> Clean(s)[k] == if m.Line? then ' ' else s[k]
  {
  }

  /** A line comment may end with the text. */
  method EraseLastLine(buf: array<char>, p: nat, flag: Flags, ghost s: seq<char>, ghost m: Mode)
    requires flag.Shows(m) && Synced(s, buf, p, m) && p == |s|
    modifies buf
    ensures buf[..|s|] == Clean(s)
    ensures forall k :: |s| <= k < buf.Length ==> buf[k] == old(buf[k])
  {
    EndClean(s, buf, m);
    hide Erases, Clean;
    if flag.line != NULL {
      Memset(buf, flag.line, p);
    }
    assert forall k :: 0 <= k < |s| ==> buf[k] == Clean(s)[k];
  }

  /** The remover agrees with the lexer that reads the original text. */
  method RemoveCAnnotation(buf: array<char>, size: nat)
    requires size < buf.Length && buf[size] != '/' && buf[size] != '*'
    modifies buf
    ensures buf[..size] == Clean(old(buf[..size]))
    ensures buf[size..] == old(buf[size..])
  {
    ghost var s, m := buf[..size], Code;
    StartSynced(s, buf);
    var flag := new Flags();
    var p := 0;
    assert flag.Shows(m);
    hide Erases, Step, Clean, Synced, Flags.Shows;
    while p < size
      invariant p <= size && flag.Shows(m) && Synced(s, buf, p, m)
      invariant forall k :: size <= k < buf.Length ==> buf[k] == old(buf[k])
      decreases size - p
    {
      var d := Dispatch(buf, p, flag, s, m);
      m := Step(s, p, m).mode;
      p := p + d;
    }
    EraseLastLine(buf, p, flag, s, m);
  }

  // ----- erasure from the middle of a scan

  lemma {:induction false} LiteralKept(s: seq<char>, i: nat, m: Mode, k: nat)
    requires ModeOk(s, i, m) && !m.Line? && !m.Block? && k < i
    ensures !Erases(s, i, m, k)
    decreases |s| - i
  {
    if i < |s| {
      StepOk(s, i, m);
      var mv := Step(s, i, m);
      if mv.mode.Line? || mv.mode.Block? {
        if Erases(s, mv.next, mv.mode, k) {
          ErasesLow(s, mv.next, mv.mode, k);
        }
      } else {
        LiteralKept(s, mv.next, mv.mode, k);
      }
    }
  }

  /** A line comment is erased, but for a carriage return before its newline. */
  lemma {:induction false} LineErased(s: seq<char>, i: nat, st: nat, k: nat)
    requires st + 2 <= i <= |s| && st <= k < i && (k < i - 1 || s[k] != '\r')
    ensures Erases(s, i, Line(st), k)
    decreases |s| - i
  {
    if i < |s| && s[i] != '\n' {
      LineErased(s, i + 1, st, k);
    }
  }

  /** The block comment that began at `st` is closed somewhere. */
  predicate Closed(s: seq<char>, i: nat, st: nat) {
    Erases(s, i, Block(st), st)
  }

  lemma {:induction false} ClosedErased(s: seq<char>, i: nat, st: nat, k: nat)
    requires st + 2 <= i <= |s| && Closed(s, i, st) && st <= k <= i
    ensures Erases(s, i, Block(st), k) && i < |s|
    decreases |s| - i
  {
    if i < |s| && !(s[i] == '*' && CharAt(s, i + 1) == '/') {
      ClosedErased(s, i + 1, st, k);
    }
  }

  lemma {:induction false} OpenKept(s: seq<char>, i: nat, st: nat, k: nat)
    requires st + 2 <= i <= |s| && !Closed(s, i, st)
    ensures !Erases(s, i, Block(st), k)
    decreases |s| - i
  {
    if i < |s| {
      OpenKept(s, i + 1, st, k);
    }
  }

  // ----- which bytes become spaces

  /** The lexer, started at `j` in mode `from`, comes to `i` in mode `m`. */
  predicate Leads(s: seq<char>, j: nat, from: Mode, i: nat, m: Mode)
    decreases |s| - j
  {
    (j == i && from == m) || (j < |s| && var mv := Step(s, j, from); Leads(s, mv.next, mv.mode, i, m))
  }

  /** The lexer of the whole text comes to `i` in mode `m`. */
  predicate Reaches(s: seq<char>, i: nat, m: Mode) { Leads(s, 0, Code, i, m) }

  lemma {:induction false} LeadsOk(s: seq<char>, j: nat, from: Mode, i: nat, m: Mode)
    requires ModeOk(s, j, from) && Leads(s, j, from, i, m)
    ensures ModeOk(s, i, m) && Low(from, j) <= Low(m, i)
    decreases |s| - j
  {
    if !(j == i && from == m) {
      StepOk(s, j, from);
      LowGrows(s, j, from);
      LeadsOk(s, Step(s, j, from).next, Step(s, j, from).mode, i, m);
    }
  }

  lemma {:induction false} LeadsSnoc(s: seq<char>, j: nat, from: Mode, i: nat, m: Mode)
    requires Leads(s, j, from, i, m) && i < |s|
    ensures Leads(s, j, from, Step(s, i, m).next, Step(s, i, m).mode)
    decreases |s| - j
  {
    if !(j == i && from == m) {
      LeadsSnoc(s, Step(s, j, from).next, Step(s, j, from).mode, i, m);
    }
  }

  /** From the start of what is still open, the rest of the scan decides as the whole does. */
  lemma {:induction false} LeadsErases(s: seq<char>, j: nat, from: Mode, i: nat, m: Mode, k: nat)
    requires ModeOk(s, j, from) && Leads(s, j, from, i, m) && Low(m, i) <= k
    ensures Erases(s, j, from, k) <==> Erases(s, i, m, k)
    decreases |s| - j
  {
    if !(j == i && from == m) {
      var mv := Step(s, j, from);
      StepOk(s, j, from);
      LeadsOk(s, mv.next, mv.mode, i, m);
      assert mv.lo < mv.hi ==> mv.hi <= Low(mv.mode, mv.next);
      LeadsErases(s, mv.next, mv.mode, i, m, k);
    }
  }

  lemma ReachedErases(s: seq<char>, i: nat, m: Mode, k: nat)
    requires Reaches(s, i, m) && Low(m, i) <= k < |s|
    ensures ModeOk(s, i, m)
    ensures Clean(s)[k] == if Erases(s, i, m, k) then ' ' else s[k]
  {
    LeadsOk(s, 0, Code, i, m);
    LeadsErases(s, 0, Code, i, m, k);
  }

  /** A character that the lexer reads outside comments, and that starts none, is kept. */
  lemma OutsideKept(s: seq<char>, i: nat, m: Mode)
    requires Reaches(s, i, m) && i < |s| && !m.Line? && !m.Block?
    requires !Step(s, i, m).mode.Line? && !Step(s, i, m).mode.Block?
    ensures Clean(s)[i] == s[i]
  {
    LeadsOk(s, 0, Code, i, m);
    ReachedErases(s, i, m, i);
    StepOk(s, i, m);
    LiteralKept(s, i + 1, Step(s, i, m).mode, i);
  }

  /** A line comment ends at `i`: at its newline, or at the end of the text. */
  predicate LineEnds(s: seq<char>, st: nat, i: nat) {
    Reaches(s, i, Line(st)) && (i == |s| || (i < |s| && s[i] == '\n'))
  }

  /** A block comment is closed by the star at `i`. */
  predicate BlockEnds(s: seq<char>, st: nat, i: nat) {
    Reaches(s, i, Block(st)) && i + 1 < |s| && s[i] == '*' && s[i + 1] == '/'
  }

  /** The carriage return of a line end. */
  predicate ReturnAt(s: seq<char>, k: nat) {
    k + 1 < |s| && s[k] == '\r' && s[k + 1] == '\n'
  }

  /** A line comment becomes spaces, and its line end stays as it is. */
  lemma LineBlanked(s: seq<char>, st: nat, i: nat, k: nat)
    requires LineEnds(s, st, i) && st <= k < |s| && k <= i
    ensures Clean(s)[k] == if k == i || (k + 1 == i && ReturnAt(s, k)) then s[k] else ' '
  {
    ReachedErases(s, i, Line(st), k);
    if i < |s| {
      LiteralKept(s, i + 1, Code, k);
    }
  }

  /** A closed block comment becomes spaces, delimiters included. */
  lemma BlockBlanked(s: seq<char>, st: nat, i: nat, k: nat)
    requires BlockEnds(s, st, i) && st <= k < i + 2
    ensures Clean(s)[k] == ' '
  {
    ReachedErases(s, i, Block(st), k);
  }

  /** A block comment that the text does not close is left alone. */
  lemma OpenBlockKept(s: seq<char>, st: nat, k: nat)
    requires Reaches(s, |s|, Block(st)) && st <= k < |s|
    ensures Clean(s)[k] == s[k]
  {
    ReachedErases(s, |s|, Block(st), k);
  }

  /** `k` lies in a line comment, but not in its line end, or in a closed block comment. */
  ghost predicate InComment(s: seq<char>, k: nat) {
    || (exists st: nat, i: nat :: LineEnds(s, st, i) && st <= k < i && !(k + 1 == i && ReturnAt(s, k)))
    || (exists st: nat, i: nat :: BlockEnds(s, st, i) && st <= k < i + 2)
  }

  lemma {:induction false} ErasedInComment(s: seq<char>, i: nat, m: Mode, k: nat)
    requires Reaches(s, i, m) && Erases(s, i, m, k)
    ensures InComment(s, k)
    decreases |s| - i
  {
    LeadsOk(s, 0, Code, i, m);
    ErasesLow(s, i, m, k);
    if i == |s| {
      assert LineEnds(s, m.start, i);
    } else {
      var mv := Step(s, i, m);
      if !(mv.lo <= k < mv.hi) {
        LeadsSnoc(s, 0, Code, i, m);
        ErasedInComment(s, mv.next, mv.mode, k);
      } else if m.Line? {
        assert LineEnds(s, m.start, i);
      } else {
        assert BlockEnds(s, m.start, i);
      }
    }
  }

  /** The cleaned text is the text with spaces exactly in its comments. */
  lemma CleanExactly(s: seq<char>, k: nat)
    requires k < |s|
    ensures |Clean(s)| == |s|
    ensures Clean(s)[k] == if InComment(s, k) then ' ' else s[k]
  {
    if Erases(s, 0, Code, k) {
      ErasedInComment(s, 0, Code, k);
    } else if st: nat, i: nat :| LineEnds(s, st, i) && st <= k < i && !(k + 1 == i && ReturnAt(s, k)) {
      LineBlanked(s, st, i, k);
    } else if st: nat, i: nat :| BlockEnds(s, st, i) && st <= k < i + 2 {
      BlockBlanked(s, st, i, k);
    }
  }

  // ----- running it again

  /** `t` is what the text becomes, as far as it has not been scanned. */
  ghost predicate Becomes(s: seq<char>, t: seq<char>, i: nat, m: Mode) {
    |t| == |s| && forall k :: Low(m, i) <= k < |s| ==> t[k] == if Erases(s, i, m, k) then ' ' else s[k]
  }

  lemma BecomesStep(s: seq<char>, t: seq<char>, i: nat, m: Mode)
    requires Becomes(s, t, i, m) && i < |s| && ModeOk(s, i, m)
    ensures Becomes(s, t, Step(s, i, m).next, Step(s, i, m).mode)
  {
    StepOk(s, i, m);
    LowGrows(s, i, m);
    var mv := Step(s, i, m);
    assert mv.lo < mv.hi ==> mv.hi <= Low(mv.mode, mv.next);
    hide Erases, Step, ModeOk;
    forall k | Low(mv.mode, mv.next) <= k < |s| ensures Erases(s, i, m, k) <==> Erases(s, mv.next, mv.mode, k) {
      ErasesStep(s, i, m, k);
    }
  }

  /** The mode of the second scan when the first one is in mode `m`. */
  function Image(s: seq<char>, i: nat, m: Mode): Mode {
    if m.Line? || (m.Block? && Closed(s, i, m.start)) then Code else m
  }

  lemma {:induction false} SameBackslashes(s: seq<char>, t: seq<char>, st: nat, k: nat)
    requires st < k <= |s| == |t| && s[st] == '"'
    requires forall j :: st <= j < k ==> t[j] == s[j]
    ensures OddBackslashes(t, k) == OddBackslashes(s, k)
  {
    if st < k - 1 {
      SameBackslashes(s, t, st, k - 1);
    }
  }

  /** In code or in a literal, the second scan sees what the first one saw. */
  lemma SecondLiteral(s: seq<char>, t: seq<char>, i: nat, m: Mode)
    requires Becomes(s, t, i, m) && i < |s| && ModeOk(s, i, m) && !m.Line? && !m.Block?
    requires !Step(s, i, m).mode.Line? && !Step(s, i, m).mode.Block?
    ensures Step(t, i, m) == Step(s, i, m) && Step(s, i, m).lo >= Step(s, i, m).hi
  {
    forall k | Low(m, i) <= k <= i ensures t[k] == s[k] {
      ErasesStep(s, i, m, k);
      StepOk(s, i, m);
      var mv := Step(s, i, m);
      LiteralKept(s, mv.next, mv.mode, k);
    }
    if m.Double? {
      SameBackslashes(s, t, m.start, i);
    }
    assert CharAt(t, i + 1) == CharAt(s, i + 1) || CharAt(t, i + 1) == ' ';
  }

  /** Where a comment began, the second scan finds spaces or an unclosed block. */
  lemma SecondStart(s: seq<char>, t: seq<char>, i: nat)
    requires Becomes(s, t, i, Code) && i < |s|
    requires Step(s, i, Code).mode.Line? || Step(s, i, Code).mode.Block?
    ensures i + 2 <= |s|
    ensures var mv := Step(s, i, Code);
            if Image(s, i + 2, mv.mode) == Code then t[i] == ' ' && t[i + 1] == ' '
            else Step(t, i, Code) == mv
  {
    var mv := Step(s, i, Code);
    ErasesStep(s, i, Code, i);
    ErasesStep(s, i, Code, i + 1);
    if mv.mode.Line? {
      LineErased(s, i + 2, i, i);
      LineErased(s, i + 2, i, i + 1);
    } else if Closed(s, i + 2, i) {
      ClosedErased(s, i + 2, i, i);
      ClosedErased(s, i + 2, i, i + 1);
    } else {
      OpenKept(s, i + 2, i, i);
      OpenKept(s, i + 2, i, i + 1);
    }
  }

  lemma SecondInLine(s: seq<char>, t: seq<char>, i: nat, st: nat)
    requires Becomes(s, t, i, Line(st)) && i < |s| && st + 2 <= i
    ensures Step(t, i, Code) == Move(i + 1, Code, 0, 0) && Step(s, i, Line(st)).next == i + 1
  {
    if s[i] == '\n' {
      LiteralKept(s, i + 1, Code, i);
    } else if s[i] != '\r' {
      LineErased(s, i + 1, st, i);
    }
  }

  lemma SecondInBlock(s: seq<char>, t: seq<char>, i: nat, st: nat)
    requires Becomes(s, t, i, Block(st)) && i < |s| && st + 2 <= i
    ensures if Closed(s, i, st) then
              t[i] == ' ' && (Step(s, i, Block(st)).next == i + 2 ==> i + 1 < |s| && t[i + 1] == ' ')
            else Step(t, i, Block(st)) == Step(s, i, Block(st)) == Move(i + 1, Block(st), 0, 0)
  {
    if Closed(s, i, st) {
      ClosedErased(s, i, st, i);
    } else {
      forall k | st <= k < |s| ensures t[k] == s[k] {
        OpenKept(s, i, st, k);
      }
      assert t == t[..st] + s[st..] && CharAt(t, i + 1) == CharAt(s, i + 1);
    }
  }

  lemma OverSpaces(t: seq<char>, i: nat, n: nat, k: nat)
    requires 1 <= n <= 2 && i + n <= |t| && t[i] == ' ' && t[i + n - 1] == ' '
    ensures Erases(t, i, Code, k) <==> Erases(t, i + n, Code, k)
  {
    ErasesStep(t, i, Code, k);
    if n == 2 {
      ErasesStep(t, i + 1, Code, k);
    }
  }

  /** The second scan keeps pace with the first and erases nothing on the way. */
  ghost predicate KeepsPace(s: seq<char>, t: seq<char>, i: nat, m: Mode, k: nat)
    requires i < |s|
  {
    var mv := Step(s, i, m);
    Erases(t, i, Image(s, i, m), k) <==> Erases(t, mv.next, Image(s, mv.next, mv.mode), k)
  }

  lemma PaceInLine(s: seq<char>, t: seq<char>, i: nat, m: Mode, k: nat)
    requires Becomes(s, t, i, m) && i < |s| && ModeOk(s, i, m) && m.Line?
    ensures KeepsPace(s, t, i, m, k)
  {
    SecondInLine(s, t, i, m.start);
    ErasesStep(t, i, Code, k);
    hide Erases;
  }

  lemma PaceInBlock(s: seq<char>, t: seq<char>, i: nat, m: Mode, k: nat)
    requires Becomes(s, t, i, m) && i < |s| && ModeOk(s, i, m) && m.Block?
    ensures KeepsPace(s, t, i, m, k)
  {
    SecondInBlock(s, t, i, m.start);
    var mv := Step(s, i, m);
    ErasesStep(s, i, m, m.start);
    if Closed(s, i, m.start) {
      OverSpaces(t, i, mv.next - i, k);
    } else {
      ErasesStep(t, i, m, k);
    }
    hide Erases;
  }

  lemma PaceInCode(s: seq<char>, t: seq<char>, i: nat, m: Mode, k: nat)
    requires Becomes(s, t, i, m) && i < |s| && ModeOk(s, i, m) && !m.Line? && !m.Block?
    ensures KeepsPace(s, t, i, m, k)
  {
    var mv := Step(s, i, m);
    if mv.mode.Line? || mv.mode.Block? {
      SecondStart(s, t, i);
      if Image(s, i + 2, mv.mode) == Code {
        OverSpaces(t, i, 2, k);
      } else {
        ErasesStep(t, i, Code, k);
      }
    } else {
      SecondLiteral(s, t, i, m);
      ErasesStep(t, i, m, k);
    }
    hide Erases;
  }

  /** Nothing is left to erase. */
  lemma {:induction false} Quiet(s: seq<char>, t: seq<char>, i: nat, m: Mode, k: nat)
    requires ModeOk(s, i, m) && Becomes(s, t, i, m)
    ensures !Erases(t, i, Image(s, i, m), k)
    decreases |s| - i
  {
    if i < |s| {
      StepOk(s, i, m);
      BecomesStep(s, t, i, m);
      var mv := Step(s, i, m);
      assert i < mv.next <= |s|;
      Quiet(s, t, mv.next, mv.mode, k);
      if m.Line? {
        PaceInLine(s, t, i, m, k);
      } else if m.Block? {
        PaceInBlock(s, t, i, m, k);
      } else {
        PaceInCode(s, t, i, m, k);
      }
      hide Erases, Step, Becomes;
    }
  }

  /** Running the remover twice is running it once. */
  lemma CleanIdempotent(s: seq<char>)
    ensures Clean(Clean(s)) == Clean(s)
  {
    var t := Clean(s);
    forall k | 0 <= k < |t| ensures Clean(t)[k] == t[k] {
      Quiet(s, t, 0, Code, k);
    }
  }
}
