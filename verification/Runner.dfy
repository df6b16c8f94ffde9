/** The scenario runner: steps in order, stop at the first failure, one result per run, cleanup in reverse. */
module Runner {
  import opened Text
  import opened Interpolation
  import opened Params

  // ---- Scenario data -------------------------------------------------------

  datatype Kind = DomainKind | ContactKind | HostKind | OtherKind

  /** A registrar's result object, with its printed fields in the order a map iteration shows them. */
  datatype Object = Object(kind: Kind, id: string, fields: seq<(string, string)>)

  datatype Result = Nothing | Single(o: Object) | Slice(items: seq<Object>)

  datatype StepError = EppError(code: int) | OtherError

  datatype Expect = Expect(code: int, fields: map<string, string>)

  datatype Step = Step(name: string, op: string, params: Entries, expectation: Option<Expect>)

  /** A run's inputs. The registrar may answer each call in any way; `known` holds the operation names it serves. */
  datatype Setup = Setup(
    name: string, steps: seq<Step>, overrides: map<string, Entries>, prefix: string,
    known: set<string>, registrar: (nat, string, Entries) -> (Result, Option<StepError>))

  datatype StepResult = StepResult(name: string, op: string, passed: bool)
  datatype ScenarioResult = ScenarioResult(name: string, passed: bool, steps: seq<StepResult>)
  datatype Deletion = Deletion(kind: Kind, id: string)

  // ---- Expectations --------------------------------------------------------

  /** The first element of a slice, the value itself otherwise. */
  function SingleResult(r: Result): Option<Object> {
    match r
    case Nothing => None
    case Single(o) => Some(o)
    case Slice(items) => if items == [] then None else Some(items[0])
  }

  function FieldsOf(r: Result): seq<(string, string)> {
    match SingleResult(r) case None => [] case Some(o) => o.fields
  }

  /** The first field whose name matches case-insensitively. */
  function FindField(fields: seq<(string, string)>, key: string): Option<string> {
    if fields == [] then None
    else if ToLower(fields[0].0) == ToLower(key) then Some(fields[0].1)
    else FindField(fields[1..], key)
  }

  /** No error counts as 1000. */
  function ActualCode(err: Option<StepError>): int {
    if err.Some? && err.value.EppError? then err.value.code else 1000
  }

  function AssertExpect(expectation: Option<Expect>, r: Result, err: Option<StepError>): bool {
    match expectation
    case None => (
      match err
      case None => true
      case Some(EppError(code)) => 1000 <= code < 2000
      case Some(OtherError) => false)
    case Some(e) =>
      err != Some(OtherError)
      && (e.code != 0 ==> ActualCode(err) == e.code)
      && forall k | k in e.fields :: FindField(FieldsOf(r), k) == Some(e.fields[k])
  }

  method CheckExpect(expectation: Option<Expect>, r: Result, err: Option<StepError>) returns (passed: bool)
    ensures passed == AssertExpect(expectation, r, err)
  {
    if expectation.None? {
      if err.Some? {
        if err.value.EppError? {
          return 1000 <= err.value.code < 2000;
        }
        return false;
      }
      return true;
    }
    var e := expectation.value;
    var actual := 1000;
    if err.Some? {
      if err.value.OtherError? {
        return false;
      }
      actual := err.value.code;
    }
    if e.code != 0 && actual != e.code {
      return false;
    }
    var fields := FieldsOf(r);
    var todo := e.fields.Keys;
    while todo != {}
      invariant todo <= e.fields.Keys
      invariant forall k | k in e.fields && k !in todo :: FindField(fields, k) == Some(e.fields[k])
      decreases todo
    {
      var k :| k in todo;
      todo := todo - {k};
      if FindField(fields, k) != Some(e.fields[k]) {
        return false;
      }
    }
    return true;
  }

  /** With names distinct up to case, the lookup does not depend on the iteration order. */
  lemma {:induction false} FindFieldIff(fields: seq<(string, string)>, key: string, v: string)
    requires forall i, j | 0 <= i < j < |fields| :: ToLower(fields[i].0) != ToLower(fields[j].0)
    ensures FindField(fields, key) == Some(v) <==> exists f :: f in fields && ToLower(f.0) == ToLower(key) && f.1 == v
  {
    if fields != [] {
      FindFieldIff(fields[1..], key, v);
      assert fields == [fields[0]] + fields[1..];
    }
  }

  /** The object a result is judged and captured by: the result itself or the first of a slice. */
  predicate Shows(r: Result, o: Object) {
    r == Single(o) || (r.Slice? && r.items != [] && r.items[0] == o)
  }

  /** The first field of that name, in any letter case, has this value. */
  ghost predicate FirstNamed(fields: seq<(string, string)>, key: string, v: string) {
    exists i: nat :: i < |fields| && NamedAt(fields, key, i) && fields[i].1 == v && forall j: nat | j < i :: !NamedAt(fields, key, j)
  }

  predicate NamedAt(fields: seq<(string, string)>, key: string, i: nat) {
    i < |fields| && ToLower(fields[i].0) == ToLower(key)
  }

  lemma NamedInTail(fields: seq<(string, string)>, key: string, i: nat)
    requires fields != []
    ensures NamedAt(fields[1..], key, i) <==> NamedAt(fields, key, i + 1)
  {
  }

  lemma {:induction false} FindFieldFirst(fields: seq<(string, string)>, key: string, v: string)
    ensures FindField(fields, key) == Some(v) <==> FirstNamed(fields, key, v)
  {
    if fields != [] {
      if NamedAt(fields, key, 0) {
        if fields[0].1 == v {
          assert NamedAt(fields, key, 0) && fields[0].1 == v;
        }
      } else {
        FindFieldFirst(fields[1..], key, v);
        FirstNamedTail(fields, key, v);
      }
    }
  }

  lemma FirstNamedTail(fields: seq<(string, string)>, key: string, v: string)
    requires fields != [] && !NamedAt(fields, key, 0)
    ensures FirstNamed(fields[1..], key, v) <==> FirstNamed(fields, key, v)
  {
    var rest := fields[1..];
    forall i: nat ensures NamedAt(rest, key, i) <==> NamedAt(fields, key, i + 1) {
      NamedInTail(fields, key, i);
    }
    if FirstNamed(rest, key, v) {
      var i: nat :| i < |rest| && NamedAt(rest, key, i) && rest[i].1 == v && forall j: nat | j < i :: !NamedAt(rest, key, j);
      forall j: nat | j < i + 1 ensures !NamedAt(fields, key, j) {
        assert j > 0 ==> (NamedAt(rest, key, j - 1) <==> NamedAt(fields, key, j));
      }
      assert NamedAt(fields, key, i + 1) && fields[i + 1].1 == v;
    }
    if FirstNamed(fields, key, v) {
      var i: nat :| i < |fields| && NamedAt(fields, key, i) && fields[i].1 == v && forall j: nat | j < i :: !NamedAt(fields, key, j);
      assert NamedAt(rest, key, i - 1) && rest[i - 1].1 == v;
    }
  }

  /** Does the code of the answer meet the expected one? No expected code is always met, and no error counts as 1000. */
  predicate CodeMet(code: int, err: Option<StepError>) {
    code == 0 || match err
                 case None => code == 1000
                 case Some(EppError(c)) => c == code
                 case Some(OtherError) => false
  }

  /** When a step passes. Without an expectation: no error, or an EPP code from 1000 to 1999. With one: no transport
      error, the expected code if there is one, and every expected field shown by the result with its value. */
  lemma PassesIff(r: Result, err: Option<StepError>, e: Expect)
    ensures AssertExpect(None, r, err)
       <==> err == None || (err.value.EppError? && err.value.code >= 1000 && err.value.code < 2000)
    ensures AssertExpect(Some(e), r, err)
       <==> err != Some(OtherError) && CodeMet(e.code, err)
            && forall k | k in e.fields :: exists o :: Shows(r, o) && FirstNamed(o.fields, k, e.fields[k])
  {
    forall k | k in e.fields
      ensures FindField(FieldsOf(r), k) == Some(e.fields[k]) <==> exists o :: Shows(r, o) && FirstNamed(o.fields, k, e.fields[k])
    {
      ShownField(r, k, e.fields[k]);
    }
  }

  lemma ShownField(r: Result, k: string, v: string)
    ensures FindField(FieldsOf(r), k) == Some(v) <==> exists o :: Shows(r, o) && FirstNamed(o.fields, k, v)
  {
    FindFieldFirst(FieldsOf(r), k, v);
    var shown := SingleResult(r);
    if shown.Some? {
      assert Shows(r, shown.value);
    }
  }

  /** An empty expectation lets every EPP error pass, and nothing lets a transport error pass. */
  lemma EmptyExpectationPassesIff(e: Expect, r: Result, err: Option<StepError>)
    requires e.code == 0 && e.fields == map[]
    ensures AssertExpect(Some(e), r, err) <==> err != Some(OtherError)
    ensures forall x: Option<Expect> :: !AssertExpect(x, r, Some(OtherError))
  {
  }

  // ---- Cleanup registration ------------------------------------------------

  function StringParam(params: Entries, key: string): string {
    if key in params && params[key].Scalar? then params[key].text else ""
  }

  function IdentityOf(kind: Kind, param: string, r: Result): string {
    if r.Single? && r.o.kind == kind && r.o.id != "" then r.o.id else param
  }

  function CreatedKind(op: string): Option<Kind> {
    if op == "create_domain" then Some(DomainKind)
    else if op == "create_contact" then Some(ContactKind)
    else if op == "create_host" then Some(HostKind)
    else None
  }

  function IdentityParam(kind: Kind): string {
    if kind == ContactKind then "id" else "name"
  }

  /** The deletion a passed step registers: none unless it is a create with a non-empty identity. The step's error
      plays no part. */
  function Registered(op: string, params: Entries, r: Result): seq<Deletion> {
    match CreatedKind(op)
    case None => []
    case Some(kind) =>
      var id := IdentityOf(kind, StringParam(params, IdentityParam(kind)), r);
      if id == "" then [] else [Deletion(kind, id)]
  }

  // ---- The run as a function -----------------------------------------------

  function PrepareStep(s: Setup, i: nat, env: Env): Entries
    requires i < |s.steps|
  {
    var step := s.steps[i];
    Prepare(step.op, step.params, if step.name in s.overrides then Some(s.overrides[step.name]) else None, env, s.prefix)
  }

  function Execute(s: Setup, i: nat, env: Env): (Result, Option<StepError>)
    requires i < |s.steps|
  {
    var op := s.steps[i].op;
    if op in s.known then s.registrar(i, op, PrepareStep(s, i, env)) else (Nothing, Some(OtherError))
  }

  function FieldMap(fields: seq<(string, string)>): map<string, string> {
    if fields == [] then map[] else FieldMap(fields[..|fields| - 1])[fields[|fields| - 1].0 := fields[|fields| - 1].1]
  }

  function Capture(env: Env, name: string, r: Result): Env {
    match SingleResult(r) case None => env case Some(o) => env[name := FieldMap(o.fields)]
  }

  /** The captured values when step i begins, given that every earlier step passed. */
  function EnvAt(s: Setup, i: nat): Env
    requires i <= |s.steps|
  {
    if i == 0 then map[]
    else Capture(EnvAt(s, i - 1), s.steps[i - 1].name, Execute(s, i - 1, EnvAt(s, i - 1)).0)
  }

  // ---- What later steps see of earlier ones --------------------------------

  /** The last field of that name has this value. */
  ghost predicate LastField(fields: seq<(string, string)>, f: string, v: string) {
    exists i: nat :: LastAt(fields, f, v, i)
  }

  predicate LastAt(fields: seq<(string, string)>, f: string, v: string, i: nat) {
    i < |fields| && fields[i] == (f, v) && forall j | i < j < |fields| :: fields[j].0 != f
  }

  lemma LastAtFront(fields: seq<(string, string)>, f: string, v: string, i: nat)
    requires fields != [] && fields[|fields| - 1].0 != f
    ensures LastAt(fields, f, v, i) <==> LastAt(fields[..|fields| - 1], f, v, i)
  {
    var front := fields[..|fields| - 1];
    forall j | 0 <= j < |front| ensures front[j] == fields[j] {}
  }

  lemma {:induction false} FieldMapIff(fields: seq<(string, string)>, f: string, v: string)
    ensures f in FieldMap(fields) && FieldMap(fields)[f] == v <==> LastField(fields, f, v)
  {
    if fields != [] {
      var n := |fields| - 1;
      FieldMapIff(fields[..n], f, v);
      if fields[n].0 != f {
        forall i: nat ensures LastAt(fields, f, v, i) <==> LastAt(fields[..n], f, v, i) {
          LastAtFront(fields, f, v, i);
        }
      } else {
        assert LastAt(fields, f, fields[n].1, n);
      }
    }
  }

  /** What the registrar answered step j, called with the references of its parameters resolved. */
  function AnswerOf(s: Setup, j: nat): Result
    requires j < |s.steps|
  {
    Execute(s, j, EnvAt(s, j)).0
  }

  /** Step j showed this object under that step name. */
  predicate Showed(s: Setup, j: nat, name: string, o: Object) {
    j < |s.steps| && s.steps[j].name == name && Shows(AnswerOf(s, j), o)
  }

  /** Of the steps of that name before i, j was the last to show an object. */
  ghost predicate ShowedLast(s: Setup, i: nat, name: string, j: nat, o: Object) {
    j < i && Showed(s, j, name, o) && forall k: nat, p | j < k < i :: !Showed(s, k, name, p)
  }

  /** Step j showed nothing under that step name. */
  ghost predicate ShowedNothing(s: Setup, j: nat, name: string) {
    forall o :: !Showed(s, j, name, o)
  }

  lemma EnvStep(s: Setup, i: nat, next: nat)
    requires next == i + 1 <= |s.steps|
    ensures EnvAt(s, next) == Capture(EnvAt(s, i), s.steps[i].name, AnswerOf(s, i))
  {
  }

  lemma CaptureShown(env: Env, name: string, r: Result, o: Object)
    requires Shows(r, o)
    ensures name in Capture(env, name, r) && Capture(env, name, r)[name] == FieldMap(o.fields)
  {
  }

  lemma CaptureOther(env: Env, step: string, r: Result, name: string)
    requires step != name || forall o :: !Shows(r, o)
    ensures name in Capture(env, step, r) <==> name in env
    ensures name in env ==> Capture(env, step, r)[name] == env[name]
  {
    var shown := SingleResult(r);
    if shown.Some? {
      assert Shows(r, shown.value);
    }
  }

  lemma CapturedNow(s: Setup, i: nat, next: nat, name: string, o: Object)
    requires next == i + 1 <= |s.steps| && Showed(s, i, name, o)
    ensures name in EnvAt(s, next) && EnvAt(s, next)[name] == FieldMap(o.fields)
    ensures forall j: nat, p :: ShowedLast(s, next, name, j, p) <==> j == i && p == o
  {
    EnvStep(s, i, next);
    CaptureShown(EnvAt(s, i), name, AnswerOf(s, i), o);
    assert ShowedLast(s, next, name, i, o);
  }

  lemma ShowedLastBefore(s: Setup, i: nat, next: nat, name: string, j: nat, p: Object)
    requires next == i + 1 && ShowedNothing(s, i, name)
    ensures ShowedLast(s, next, name, j, p) <==> ShowedLast(s, i, name, j, p)
  {
  }

  lemma CapturedBefore(s: Setup, i: nat, next: nat, name: string)
    requires next == i + 1 <= |s.steps| && ShowedNothing(s, i, name)
    ensures name in EnvAt(s, next) <==> name in EnvAt(s, i)
    ensures name in EnvAt(s, i) ==> EnvAt(s, next)[name] == EnvAt(s, i)[name]
  {
    EnvStep(s, i, next);
    if s.steps[i].name == name {
      forall o ensures !Shows(AnswerOf(s, i), o) {
        assert !Showed(s, i, name, o);
      }
    }
    CaptureOther(EnvAt(s, i), s.steps[i].name, AnswerOf(s, i), name);
  }

  ghost predicate CapturedFrom(s: Setup, i: nat, name: string, m: map<string, string>) {
    exists j: nat, o :: ShowedLast(s, i, name, j, o) && m == FieldMap(o.fields)
  }

  lemma CapturedFromSame(s: Setup, i: nat, next: nat, name: string, m: map<string, string>)
    requires forall j: nat, p :: ShowedLast(s, next, name, j, p) <==> ShowedLast(s, i, name, j, p)
    ensures CapturedFrom(s, next, name, m) <==> CapturedFrom(s, i, name, m)
  {
  }

  /** What is captured under a step name is exactly what the last step of that name to show an object showed. */
  lemma {:induction false} EnvIff(s: Setup, i: nat, name: string, m: map<string, string>)
    requires i <= |s.steps|
    ensures name in EnvAt(s, i) && EnvAt(s, i)[name] == m <==> CapturedFrom(s, i, name, m)
  {
    if i > 0 {
      var h := i - 1;
      if ShowedNothing(s, h, name) {
        CapturedBefore(s, h, i, name);
        EnvIff(s, h, name, m);
        forall j: nat, p ensures ShowedLast(s, i, name, j, p) <==> ShowedLast(s, h, name, j, p) {
          ShowedLastBefore(s, h, i, name, j, p);
        }
        CapturedFromSame(s, h, i, name, m);
      } else {
        var o :| Showed(s, h, name, o);
        CapturedNow(s, h, i, name, o);
        assert ShowedLast(s, i, name, h, o);
      }
    }
  }

  /** A value is captured for a later step exactly when the last step of that name to show an object showed it. */
  lemma CapturedValueIff(s: Setup, i: nat, name: string, f: string, v: string)
    requires i <= |s.steps|
    ensures name in EnvAt(s, i) && f in EnvAt(s, i)[name] && EnvAt(s, i)[name][f] == v <==>
              exists j: nat, o :: ShowedLast(s, i, name, j, o) && LastField(o.fields, f, v)
  {
    if name in EnvAt(s, i) {
      EnvIff(s, i, name, EnvAt(s, i)[name]);
    }
    forall j: nat, o | ShowedLast(s, i, name, j, o)
      ensures name in EnvAt(s, i) && EnvAt(s, i)[name] == FieldMap(o.fields)
    {
      EnvIff(s, i, name, FieldMap(o.fields));
    }
    forall o: Object ensures f in FieldMap(o.fields) && FieldMap(o.fields)[f] == v <==> LastField(o.fields, f, v) {
      FieldMapIff(o.fields, f, v);
    }
  }

  /** A parameter that refers to what an earlier step showed reaches the registrar as the value shown; the name or id of a
      create is prefixed on the way. */
  lemma ReferenceReaches(s: Setup, i: nat, key: string, name: string, f: string, v: string, j: nat, o: Object)
    requires i < |s.steps| && IsWord(name) && IsWord(f)
    requires ShowedLast(s, i, name, j, o) && LastField(o.fields, f, v)
    requires var step := s.steps[i];
             var over := if step.name in s.overrides then Some(s.overrides[step.name]) else None;
             && (key in step.params || (over.Some? && key in over.value))
             && Overridden(step.params, over, key) == Scalar(Token(name, f))
    ensures key in PrepareStep(s, i, EnvAt(s, i))
    ensures !(HasPrefix(s.steps[i].op, "create_") && (key == "name" || key == "id")) ==>
              PrepareStep(s, i, EnvAt(s, i))[key] == Scalar(v)
    ensures HasPrefix(s.steps[i].op, "create_") && (key == "name" || key == "id") && !HasPrefix(v, "${") ==>
              PrepareStep(s, i, EnvAt(s, i))[key] == Scalar(s.prefix + "-" + v)
  {
    var step := s.steps[i];
    var over := if step.name in s.overrides then Some(s.overrides[step.name]) else None;
    CapturedValueIff(s, i, name, f, v);
    TokenAlone(name, f, EnvAt(s, i));
    PrepareMeaning(step.op, step.params, over, EnvAt(s, i), s.prefix, key);
  }

  /** A reference to a step that has shown nothing, or nothing of that field, reaches the registrar as it stands. */
  lemma DanglingReferenceStays(s: Setup, i: nat, key: string, name: string, f: string)
    requires i < |s.steps| && IsWord(name) && IsWord(f)
    requires forall j: nat, o, v :: !(ShowedLast(s, i, name, j, o) && LastField(o.fields, f, v))
    requires var step := s.steps[i];
             var over := if step.name in s.overrides then Some(s.overrides[step.name]) else None;
             && (key in step.params || (over.Some? && key in over.value))
             && Overridden(step.params, over, key) == Scalar(Token(name, f))
    ensures key in PrepareStep(s, i, EnvAt(s, i)) && PrepareStep(s, i, EnvAt(s, i))[key] == Scalar(Token(name, f))
  {
    var step, env := s.steps[i], EnvAt(s, i);
    var over := if step.name in s.overrides then Some(s.overrides[step.name]) else None;
    if name in env && f in env[name] {
      CapturedValueIff(s, i, name, f, env[name][f]);
      assert false;
    }
    TokenAlone(name, f, env);
    TokenStarts(name, f);
    PrepareMeaning(step.op, step.params, over, env, s.prefix, key);
  }

  lemma TokenStarts(name: string, f: string)
    ensures HasPrefix(Token(name, f), "${")
  {
    TokenShape(name, f, 0);
    TokenShape(name, f, 1);
    assert Token(name, f)[..2] == "${";
  }

  /** An operation the registrar does not serve fails like a lost connection, and its step does not pass. */
  lemma UnknownOperationFails(s: Setup, i: nat)
    requires i < |s.steps| && s.steps[i].op !in s.known
    ensures !Passes(s, i)
  {
  }

  predicate Passes(s: Setup, i: nat)
    requires i < |s.steps|
  {
    var (r, err) := Execute(s, i, EnvAt(s, i));
    AssertExpect(s.steps[i].expectation, r, err)
  }

  function Passing(s: Setup): nat -> bool {
    (i: nat) => i < |s.steps| && Passes(s, i)
  }

  /** The first of i, ..., top - 1 that is not ok, or top. */
  function FirstFailure(ok: nat -> bool, i: nat, top: nat): (n: nat)
    requires i <= top
    ensures i <= n <= top && (forall k | i <= k < n :: ok(k)) && (n < top ==> !ok(n))
    decreases top - i
  {
    if i < top && ok(i) then FirstFailure(ok, i + 1, top) else i
  }

  /** How many steps pass before the run ends: all of them, or those before the first failure. */
  function PassedSteps(s: Setup): (n: nat)
    ensures n <= |s.steps|
  {
    FirstFailure(Passing(s), 0, |s.steps|)
  }

  function DeletionOf(s: Setup, i: nat): seq<Deletion>
    requires i < |s.steps|
  {
    Registered(s.steps[i].op, PrepareStep(s, i, EnvAt(s, i)), Execute(s, i, EnvAt(s, i)).0)
  }

  function Gather(f: nat -> seq<Deletion>, n: nat): seq<Deletion> {
    if n == 0 then [] else Gather(f, n - 1) + f(n - 1)
  }

  function Deletions(s: Setup): nat -> seq<Deletion> {
    (i: nat) => if i < |s.steps| then DeletionOf(s, i) else []
  }

  /** The cleanup stack after the first n steps passed. */
  function StackAfter(s: Setup, n: nat): seq<Deletion> {
    Gather(Deletions(s), n)
  }

  function ResultsAfter(s: Setup, n: nat): seq<StepResult>
    requires n <= |s.steps|
  {
    seq(n, i requires 0 <= i < n => StepResult(s.steps[i].name, s.steps[i].op, true))
  }

  lemma ResultsStep(s: Setup, i: nat)
    requires i < |s.steps|
    ensures ResultsAfter(s, i + 1) == ResultsAfter(s, i) + [StepResult(s.steps[i].name, s.steps[i].op, true)]
  {
  }

  function Report(s: Setup): ScenarioResult {
    var n := PassedSteps(s);
    if n == |s.steps| then ScenarioResult(s.name, true, ResultsAfter(s, n))
    else ScenarioResult(s.name, false, ResultsAfter(s, n) + [StepResult(s.steps[n].name, s.steps[n].op, false)])
  }

  function Reversed<T>(xs: seq<T>): (r: seq<T>)
    ensures |r| == |xs|
  {
    seq(|xs|, i requires 0 <= i < |xs| => xs[|xs| - 1 - i])
  }

  // ---- The runner object ---------------------------------------------------

  /** One test: the results collected so far, and for each of its runs the stack its cleanup closure holds. */
  class TestRun {
    var collected: seq<ScenarioResult>
    var cleanups: seq<seq<Deletion>>
    var deleteCalls: seq<Deletion>

    constructor (earlier: seq<ScenarioResult>)
      ensures collected == earlier && cleanups == [] && deleteCalls == []
    {
      collected, cleanups, deleteCalls := earlier, [], [];
    }

    method RunScenario(s: Setup)
      modifies this`collected, this`cleanups
      ensures collected == old(collected) + [Report(s)]
      ensures cleanups == old(cleanups) + [StackAfter(s, PassedSteps(s))]
    {
      cleanups := cleanups + [[]];
      var captured: Env := map[];
      var stepResults: seq<StepResult> := [];
      var i := 0;
      while i < |s.steps|
        invariant i <= |s.steps| && PassedSteps(s) == FirstFailure(Passing(s), i, |s.steps|)
        invariant captured == EnvAt(s, i)
        invariant stepResults == ResultsAfter(s, i)
        invariant cleanups == old(cleanups) + [StackAfter(s, i)]
        invariant collected == old(collected)
      {
        var step := s.steps[i];
        var passed;
        StackStep(s, i);
        passed, captured := RunStep(s, i, captured);
        assert passed == Passing(s)(i);
        if !passed {
          stepResults := stepResults + [StepResult(step.name, step.op, false)];
          collected := collected + [ScenarioResult(s.name, false, stepResults)];
          return;
        }
        ResultsStep(s, i);
        stepResults := stepResults + [StepResult(step.name, step.op, true)];
        i := i + 1;
      }
      collected := collected + [ScenarioResult(s.name, true, stepResults)];
    }

    /** The body of the step loop up to the result: prepare, execute, check, capture, register. */
    method RunStep(s: Setup, i: nat, env: Env) returns (passed: bool, captured: Env)
      requires i < |s.steps| && cleanups != []
      modifies this`cleanups
      ensures var (r, err) := Execute(s, i, env);
              && passed == AssertExpect(s.steps[i].expectation, r, err)
              && captured == (if passed then Capture(env, s.steps[i].name, r) else env)
              && cleanups == if passed then Pushed(old(cleanups), Registered(s.steps[i].op, PrepareStep(s, i, env), r))
                             else old(cleanups)
    {
      var step := s.steps[i];
      var params := step.params;
      if step.name in s.overrides {
        params := DeepMerge(params, s.overrides[step.name]);
      }
      params := InterpolateParams(params, env);
      params := InjectRunIDPrefix(step.op, params, s.prefix);
      assert params == PrepareStep(s, i, env);
      var result, err := Nothing, Some(OtherError);
      if step.op in s.known {
        var answer := s.registrar(i, step.op, params);
        result, err := answer.0, answer.1;
      }
      captured := env;
      passed := CheckExpect(step.expectation, result, err);
      if !passed {
        return;
      }
      var value := SingleResult(result);
      if value.Some? {
        captured := env[step.name := FieldMap(value.value.fields)];
      }
      RegisterCleanup(step.op, params, result);
    }

    lemma StackStep(s: Setup, i: nat)
      requires i < |s.steps|
      ensures StackAfter(s, i + 1) == StackAfter(s, i) + DeletionOf(s, i)
    {
    }

    /** Pushes onto the stack of the current run. */
    method RegisterCleanup(op: string, params: Entries, result: Result)
      requires cleanups != []
      modifies this`cleanups
      ensures cleanups == Pushed(old(cleanups), Registered(op, params, result))
    {
      PushedNothing(cleanups);
      var kind := CreatedKind(op);
      if kind.None? {
        return;
      }
      var id := StringParam(params, IdentityParam(kind.value));
      if result.Single? && result.o.kind == kind.value && result.o.id != "" {
        id := result.o.id;
      }
      if id == "" {
        return;
      }
      var current := |cleanups| - 1;
      cleanups := cleanups[..current] + [cleanups[current] + [Deletion(kind.value, id)]];
    }

    /** The t.Cleanup closures, run last registered first when the test is over however it ended. Failed deletions
        are only logged. */
    method Cleanup()
      modifies this`deleteCalls
      ensures deleteCalls == old(deleteCalls) + Reversed(Concatenated(cleanups))
    {
      var run := |cleanups|;
      assert cleanups[..run] == cleanups;
      while run > 0
        invariant 0 <= run <= |cleanups|
        invariant deleteCalls + Reversed(Concatenated(cleanups[..run]))
               == old(deleteCalls) + Reversed(Concatenated(cleanups))
      {
        run := run - 1;
        ReversedLast(cleanups, run);
        DeleteStack(cleanups[run]);
      }
      assert deleteCalls + [] == deleteCalls;
    }

    /** One closure: the stack from the top down. */
    method DeleteStack(stack: seq<Deletion>)
      modifies this`deleteCalls
      ensures deleteCalls == old(deleteCalls) + Reversed(stack)
    {
      var i := |stack|;
      while i > 0
        invariant 0 <= i <= |stack|
        invariant deleteCalls == old(deleteCalls) + Reversed(stack)[..|stack| - i]
      {
        i := i - 1;
        ghost var done := |stack| - i;
        assert Reversed(stack)[..done] == Reversed(stack)[..done - 1] + [stack[i]];
        deleteCalls := deleteCalls + [stack[i]];
      }
      assert Reversed(stack)[..|stack|] == Reversed(stack);
    }
  }

  lemma StackStep(s: Setup, i: nat)
    requires i < |s.steps|
    ensures StackAfter(s, i + 1) == StackAfter(s, i) + DeletionOf(s, i)
  {
  }

  /** The last stack grows. */
  function Pushed(stacks: seq<seq<Deletion>>, more: seq<Deletion>): seq<seq<Deletion>>
    requires stacks != []
  {
    stacks[..|stacks| - 1] + [stacks[|stacks| - 1] + more]
  }

  lemma PushedNothing(stacks: seq<seq<Deletion>>)
    requires stacks != []
    ensures Pushed(stacks, []) == stacks
  {
    var last := stacks[|stacks| - 1];
    assert last + [] == last;
  }

  function Concatenated(stacks: seq<seq<Deletion>>): seq<Deletion> {
    if stacks == [] then [] else Concatenated(stacks[..|stacks| - 1]) + stacks[|stacks| - 1]
  }

  lemma ReversedConcat(a: seq<Deletion>, b: seq<Deletion>)
    ensures Reversed(a + b) == Reversed(b) + Reversed(a)
  {
  }

  lemma ReversedLast(stacks: seq<seq<Deletion>>, n: nat)
    requires n < |stacks|
    ensures Reversed(Concatenated(stacks[..n + 1])) == Reversed(stacks[n]) + Reversed(Concatenated(stacks[..n]))
  {
    assert stacks[..n + 1][..n] == stacks[..n];
    ReversedConcat(Concatenated(stacks[..n]), stacks[n]);
  }

  // ---- What a run reports --------------------------------------------------

  /** A result is well formed when its steps all passed but possibly the last, and it passed exactly when all did. */
  predicate WellFormed(r: ScenarioResult) {
    && (forall k | 0 <= k < |r.steps| - 1 :: r.steps[k].passed)
    && (r.passed <==> forall k | 0 <= k < |r.steps| :: r.steps[k].passed)
  }

  /** A run's results are an in-order prefix of its steps, all passed but possibly the last; the scenario passed
      exactly when every step ran and passed. */
  lemma ReportMeaning(s: Setup)
    ensures var r := Report(s);
            && WellFormed(r)
            && |r.steps| <= |s.steps|
            && (forall k | 0 <= k < |r.steps| :: r.steps[k].name == s.steps[k].name && r.steps[k].op == s.steps[k].op
                                                 && r.steps[k].passed == Passes(s, k))
            && (r.passed <==> |r.steps| == |s.steps| && forall k | 0 <= k < |s.steps| :: Passes(s, k))
  {
    var n := PassedSteps(s);
    var r := Report(s);
    forall k | 0 <= k < |s.steps| ensures Passing(s)(k) == Passes(s, k) {}
    if n < |s.steps| {
      assert !r.steps[n].passed && !Passing(s)(n);
    }
  }

  // ---- What cleanup deletes ------------------------------------------------

  /** The indices below n at which something is registered. */
  function Sources(f: nat -> seq<Deletion>, n: nat): seq<nat> {
    if n == 0 then [] else Sources(f, n - 1) + if f(n - 1) != [] then [n - 1] else []
  }

  lemma {:induction false} SourcesMeaning(f: nat -> seq<Deletion>, n: nat)
    requires forall i: nat :: |f(i)| <= 1
    ensures |Sources(f, n)| == |Gather(f, n)|
    ensures forall k | 0 <= k < |Sources(f, n)| :: Sources(f, n)[k] < n && f(Sources(f, n)[k]) == [Gather(f, n)[k]]
    ensures forall j, k | 0 <= j < k < |Sources(f, n)| :: Sources(f, n)[j] < Sources(f, n)[k]
    ensures forall i: nat | i < n :: i in Sources(f, n) <==> f(i) != []
  {
    if n > 0 {
      SourcesMeaning(f, n - 1);
    }
  }

  lemma AtMostOneDeletion(s: Setup, i: nat)
    ensures |Deletions(s)(i)| <= 1
  {
  }

  /** `calls` holds, latest first and once each, what f gives at the indices below n where it gives anything;
      `src` lists those indices. */
  ghost predicate LatestFirst(f: nat -> seq<Deletion>, n: nat, src: seq<nat>, calls: seq<Deletion>) {
    && |calls| == |src|
    && (forall k | 0 <= k < |src| :: src[k] < n && f(src[k]) == [calls[|src| - 1 - k]])
    && (forall j, k | 0 <= j < k < |src| :: src[j] < src[k])
    && (forall i: nat | i < n :: i in src <==> f(i) != [])
  }

  lemma GatherReversed(f: nat -> seq<Deletion>, n: nat)
    requires forall i: nat :: |f(i)| <= 1
    ensures LatestFirst(f, n, Sources(f, n), Reversed(Gather(f, n)))
  {
    SourcesMeaning(f, n);
  }

  /** Cleanup deletes, latest first and once each, exactly what the passed creates with a non-empty identity
      registered - also after an early stop. */
  lemma CleanupMeaning(s: Setup)
    ensures var n := PassedSteps(s);
            LatestFirst(Deletions(s), n, Sources(Deletions(s), n), Reversed(StackAfter(s, n)))
  {
    forall i: nat ensures |Deletions(s)(i)| <= 1 {
      AtMostOneDeletion(s, i);
    }
    GatherReversed(Deletions(s), PassedSteps(s));
  }

  /** Step i is a create of d's kind and names the object d.id: by its result if that is one object of the kind with an
      identity, else by its parameter, `id` for a contact and `name` otherwise. */
  ghost predicate Names(s: Setup, i: nat, d: Deletion)
    requires i < |s.steps|
  {
    var op, r, params := s.steps[i].op, AnswerOf(s, i), PrepareStep(s, i, EnvAt(s, i));
    && d.id != ""
    && match d.kind
       case DomainKind => op == "create_domain" && NamedBy(r, d, params, "name")
       case ContactKind => op == "create_contact" && NamedBy(r, d, params, "id")
       case HostKind => op == "create_host" && NamedBy(r, d, params, "name")
       case OtherKind => false
  }

  predicate NamedBy(r: Result, d: Deletion, params: Entries, key: string) {
    if r.Single? && r.o.kind == d.kind && r.o.id != "" then d.id == r.o.id
    else key in params && params[key] == Scalar(d.id)
  }

  lemma OperationNames()
    ensures "create_domain" != "create_contact" && "create_domain" != "create_host" && "create_contact" != "create_host"
  {
    assert |"create_domain"| == 13 && |"create_contact"| == 14 && |"create_host"| == 11;
  }

  lemma NamesIff(s: Setup, i: nat, d: Deletion)
    requires i < |s.steps|
    ensures DeletionOf(s, i) == [d] <==> Names(s, i, d)
  {
    OperationNames();
  }

  lemma {:induction false} GatheredIff(f: nat -> seq<Deletion>, n: nat, d: Deletion)
    requires forall i: nat :: |f(i)| <= 1
    ensures d in Gather(f, n) <==> exists i: nat :: i < n && f(i) == [d]
  {
    if n > 0 {
      GatheredIff(f, n - 1, d);
      assert d in f(n - 1) <==> f(n - 1) == [d];
    }
  }

  /** Something is on the cleanup stack after n passed steps exactly when one of them is a create that names it. */
  lemma RegistersIff(s: Setup, n: nat, d: Deletion)
    requires n <= |s.steps|
    ensures d in StackAfter(s, n) <==> exists i: nat :: i < n && Names(s, i, d)
  {
    var f := Deletions(s);
    forall i: nat ensures |f(i)| <= 1 {
      AtMostOneDeletion(s, i);
    }
    GatheredIff(f, n, d);
    forall i: nat | i < n ensures f(i) == [d] <==> Names(s, i, d) {
      NamesIff(s, i, d);
    }
  }
}
