/**
 * Parameter extraction (main.go:33-64): the ordered list of
 * (inputname, compvalue) pairs is folded into seven typed variables.
 */
module Params {
  import opened Wrappers
  import opened Text
  import opened Scan

  datatype Param = Param(inputName: string, compValue: string)

  /** The variables main.go declares before the loop. */
  datatype Fields = Fields(
    addr: string, password: string, db: int, action: string,
    key: string, value: string, expiration: int)

  /** Their values before the first parameter: Go's zero values, and `action` set to "get". */
  const Initial: Fields := Fields("", "", 0, "get", "", "", 0)

  /** The seven names the `switch` recognises. */
  datatype Slot = Addr | Password | Db | Action | Key | Value | Expiration

  /** The slot a (lower-cased) name selects; any other name selects none. */
  function SlotOf(name: string): Option<Slot> {
    if name == "addr" then Some(Addr)
    else if name == "password" then Some(Password)
    else if name == "db" then Some(Db)
    else if name == "action" then Some(Action)
    else if name == "key" then Some(Key)
    else if name == "value" then Some(Value)
    else if name == "expiration" then Some(Expiration)
    else None
  }

  /** One turn of the loop body: the `switch` on the lower-cased name. */
  function Step(f: Fields, p: Param): Fields {
    var val := TrimSpace(p.compValue);
    match SlotOf(Lower(p.inputName))
    case Some(Addr) => f.(addr := val)
    case Some(Password) => f.(password := val)
    case Some(Db) => (match ScanInt(val) case Some(n) => f.(db := n) case None => f)
    case Some(Action) => if val != "" then f.(action := Lower(val)) else f
    case Some(Key) => f.(key := val)
    case Some(Value) => f.(value := val)
    case Some(Expiration) => (match ScanInt(val) case Some(n) => f.(expiration := n) case None => f)
    case None => f
  }

  /** The variables after the loop has run over all of `ps`, in order. */
  function Normalize(ps: seq<Param>): Fields {
    if ps == [] then Initial else Step(Normalize(ps[..|ps| - 1]), ps[|ps| - 1])
  }

  /** The extraction loop itself, over the seven local variables. */
  method Extract(params: seq<Param>) returns (f: Fields)
    ensures f == Normalize(params)
  {
    var addr, password, db, action, key, value, expiration := "", "", 0, "get", "", "", 0;
    for i := 0 to |params|
      invariant Fields(addr, password, db, action, key, value, expiration) == Normalize(params[..i])
    {
      var p := params[i];
      var val := TrimSpace(p.compValue);
      match SlotOf(Lower(p.inputName)) {
        case Some(Addr) =>
          addr := val;
        case Some(Password) =>
          password := val;
        case Some(Db) =>
          var scanned := ScanInt(val);
          if scanned.Some? {
            db := scanned.value;
          }
        case Some(Action) =>
          if val != "" {
            action := Lower(val);
          }
        case Some(Key) =>
          key := val;
        case Some(Value) =>
          value := val;
        case Some(Expiration) =>
          var scanned := ScanInt(val);
          if scanned.Some? {
            expiration := scanned.value;
          }
        case None =>
      }
      assert params[..i + 1][..i] == params[..i];
    }
    assert params[..|params|] == params;
    f := Fields(addr, password, db, action, key, value, expiration);
  }

  // ---------------------------------------------------------------------
  // An independent, table-like description of the same loop: which
  // variable a parameter assigns and to what.
  // ---------------------------------------------------------------------

  /** A variable's content: text, or an integer for `db` and `expiration`. */
  datatype Setting = Str(s: string) | Num(n: int)

  function Get(f: Fields, s: Slot): Setting {
    match s
    case Addr => Str(f.addr)
    case Password => Str(f.password)
    case Db => Num(f.db)
    case Action => Str(f.action)
    case Key => Str(f.key)
    case Value => Str(f.value)
    case Expiration => Num(f.expiration)
  }

  /**
   * The assignment parameter `p` performs, if any: text slots take the
   * trimmed value; `action` takes it lower-cased unless it is blank; the
   * integer slots take it only when it scans as an integer.
   */
  function Assignment(p: Param): Option<(Slot, Setting)> {
    var val := TrimSpace(p.compValue);
    match SlotOf(Lower(p.inputName))
    case None => None
    case Some(s) =>
      match s
      case Db | Expiration => (match ScanInt(val) case Some(n) => Some((s, Num(n))) case None => None)
      case Action => if val == "" then None else Some((s, Str(Lower(val))))
      case _ => Some((s, Str(val)))
  }

  predicate Assigns(p: Param, s: Slot) {
    Assignment(p).Some? && Assignment(p).value.0 == s
  }

  /** One loop turn changes exactly the slot the parameter assigns, to the value it assigns. */
  lemma StepAssigns(f: Fields, p: Param, s: Slot)
    ensures Get(Step(f, p), s) == if Assigns(p, s) then Assignment(p).value.1 else Get(f, s)
  {
  }

  /** The index of the last parameter that assigns slot `s`, if any does. */
  function LastAssigner(ps: seq<Param>, s: Slot): (r: Option<nat>)
    ensures r.Some? ==> r.value < |ps| && Assigns(ps[r.value], s)
    ensures r.Some? ==> forall j :: r.value < j < |ps| ==> !Assigns(ps[j], s)
    ensures r.None? ==> forall i :: 0 <= i < |ps| ==> !Assigns(ps[i], s)
  {
    if ps == [] then None
    else if Assigns(ps[|ps| - 1], s) then Some(|ps| - 1)
    else
      var r := LastAssigner(ps[..|ps| - 1], s);
      assert forall i :: 0 <= i < |ps| - 1 ==> ps[..|ps| - 1][i] == ps[i];
      r
  }

  /**
   * After the loop, a slot holds what the LAST parameter assigning it
   * assigned, and its initial value when no parameter assigns it.
   */
  lemma {:induction false} LastAssignmentWins(ps: seq<Param>, s: Slot)
    ensures Get(Normalize(ps), s)
      == match LastAssigner(ps, s) case None => Get(Initial, s) case Some(i) => Assignment(ps[i]).value.1
  {
    if ps != [] {
      var init := ps[..|ps| - 1];
      LastAssignmentWins(init, s);
      StepAssigns(Normalize(init), ps[|ps| - 1], s);
      if !Assigns(ps[|ps| - 1], s) && LastAssigner(init, s).Some? {
        assert init[LastAssigner(init, s).value] == ps[LastAssigner(init, s).value];
      }
    }
  }

  /** The slot holds what its last assigning parameter assigned. */
  lemma LastAssignmentAt(ps: seq<Param>, s: Slot, i: nat)
    requires i < |ps| && Assigns(ps[i], s)
    requires forall j :: i < j < |ps| ==> !Assigns(ps[j], s)
    ensures Get(Normalize(ps), s) == Assignment(ps[i]).value.1
  {
    assert LastAssigner(ps, s) == Some(i);
    LastAssignmentWins(ps, s);
  }

  /** A slot no parameter assigns keeps its initial value. */
  lemma NoAssignment(ps: seq<Param>, s: Slot)
    requires forall i :: 0 <= i < |ps| ==> !Assigns(ps[i], s)
    ensures Get(Normalize(ps), s) == Get(Initial, s)
  {
    LastAssignmentWins(ps, s);
  }

  /** For the text slots, a parameter assigns exactly when its name selects the slot. */
  lemma TextAssigns(p: Param, s: Slot)
    requires s in {Addr, Password, Key, Value}
    ensures Assigns(p, s) <==> SlotOf(Lower(p.inputName)) == Some(s)
    ensures Assigns(p, s) ==> Assignment(p).value.1 == Str(TrimSpace(p.compValue))
  {
  }

  /** An action parameter assigns exactly when its trimmed value is not blank. */
  lemma ActionAssigns(p: Param)
    ensures Assigns(p, Action) <==> SlotOf(Lower(p.inputName)) == Some(Action) && TrimSpace(p.compValue) != ""
    ensures Assigns(p, Action) ==> Assignment(p).value.1 == Str(Lower(TrimSpace(p.compValue)))
  {
    var val := TrimSpace(p.compValue);
    if SlotOf(Lower(p.inputName)) == Some(Action) {
      assert Assignment(p) == if val == "" then None else Some((Action, Str(Lower(val))));
    }
  }

  /** A `db` or `expiration` parameter assigns exactly when its trimmed value scans as an integer. */
  lemma NumberAssigns(p: Param, s: Slot)
    requires s in {Db, Expiration}
    ensures Assigns(p, s) <==> SlotOf(Lower(p.inputName)) == Some(s) && ScanInt(TrimSpace(p.compValue)).Some?
    ensures Assigns(p, s) ==> Assignment(p).value.1 == Num(ScanInt(TrimSpace(p.compValue)).value)
  {
    var val := TrimSpace(p.compValue);
    if SlotOf(Lower(p.inputName)) == Some(s) {
      assert Assignment(p) == match ScanInt(val) case Some(n) => Some((s, Num(n))) case None => None;
    }
  }

  lemma NoTextAssigner(ps: seq<Param>, s: Slot, i: int)
    requires -1 <= i
    requires s in {Addr, Password, Key, Value}
    requires forall j :: i < j < |ps| ==> SlotOf(Lower(ps[j].inputName)) != Some(s)
    ensures forall j :: i < j < |ps| ==> !Assigns(ps[j], s)
  {
    forall j | i < j < |ps| ensures !Assigns(ps[j], s) {
      TextAssigns(ps[j], s);
    }
  }

  lemma NoActionAssigner(ps: seq<Param>, i: int)
    requires -1 <= i
    requires forall j :: i < j < |ps| && SlotOf(Lower(ps[j].inputName)) == Some(Action) ==> TrimSpace(ps[j].compValue) == ""
    ensures forall j :: i < j < |ps| ==> !Assigns(ps[j], Action)
  {
    forall j | i < j < |ps| ensures !Assigns(ps[j], Action) {
      ActionAssigns(ps[j]);
    }
  }

  lemma NoNumberAssigner(ps: seq<Param>, s: Slot, i: int)
    requires -1 <= i
    requires s in {Db, Expiration}
    requires forall j :: i < j < |ps| && SlotOf(Lower(ps[j].inputName)) == Some(s) ==> ScanInt(TrimSpace(ps[j].compValue)).None?
    ensures forall j :: i < j < |ps| ==> !Assigns(ps[j], s)
  {
    forall j | i < j < |ps| ensures !Assigns(ps[j], s) {
      NumberAssigns(ps[j], s);
    }
  }

  /** `addr`, `password`, `key` and `value` are "" when no parameter names them. */
  lemma TextSlotDefault(ps: seq<Param>, s: Slot)
    requires s in {Addr, Password, Key, Value}
    requires forall i :: 0 <= i < |ps| ==> SlotOf(Lower(ps[i].inputName)) != Some(s)
    ensures Get(Normalize(ps), s) == Str("")
  {
    NoTextAssigner(ps, s, -1);
    NoAssignment(ps, s);
  }

  /**
   * Otherwise they hold the trimmed value of the last parameter whose name
   * lower-cases to the slot's name: last occurrence wins.
   */
  lemma TextSlotLastWins(ps: seq<Param>, s: Slot, i: nat)
    requires s in {Addr, Password, Key, Value}
    requires i < |ps| && SlotOf(Lower(ps[i].inputName)) == Some(s)
    requires forall j :: i < j < |ps| ==> SlotOf(Lower(ps[j].inputName)) != Some(s)
    ensures Get(Normalize(ps), s) == Str(TrimSpace(ps[i].compValue))
  {
    TextAssigns(ps[i], s);
    NoTextAssigner(ps, s, i);
    LastAssignmentAt(ps, s, i);
  }

  /** `action` is "get" unless some action parameter has a non-blank value. */
  lemma ActionDefault(ps: seq<Param>)
    requires forall i :: 0 <= i < |ps| && SlotOf(Lower(ps[i].inputName)) == Some(Action) ==> TrimSpace(ps[i].compValue) == ""
    ensures Normalize(ps).action == "get"
  {
    NoActionAssigner(ps, -1);
    NoAssignment(ps, Action);
    assert Get(Initial, Action) == Str("get");
    var f := Normalize(ps);
    assert Get(f, Action) == Str(f.action);
  }

  /** Otherwise it is the lower-cased, trimmed value of the last action parameter that is not blank. */
  lemma ActionLastNonBlankWins(ps: seq<Param>, i: nat)
    requires i < |ps| && SlotOf(Lower(ps[i].inputName)) == Some(Action) && TrimSpace(ps[i].compValue) != ""
    requires forall j :: i < j < |ps| && SlotOf(Lower(ps[j].inputName)) == Some(Action) ==> TrimSpace(ps[j].compValue) == ""
    ensures Normalize(ps).action == Lower(TrimSpace(ps[i].compValue))
  {
    ActionAssigns(ps[i]);
    NoActionAssigner(ps, i);
    LastAssignmentAt(ps, Action, i);
    var f := Normalize(ps);
    assert Get(f, Action) == Str(f.action);
  }

  /** `db` and `expiration` stay 0 when no parameter of that name has a value that scans as an integer. */
  lemma NumberSlotDefault(ps: seq<Param>, s: Slot)
    requires s in {Db, Expiration}
    requires forall i :: 0 <= i < |ps| && SlotOf(Lower(ps[i].inputName)) == Some(s) ==> ScanInt(TrimSpace(ps[i].compValue)).None?
    ensures Get(Normalize(ps), s) == Num(0)
  {
    NoNumberAssigner(ps, s, -1);
    NoAssignment(ps, s);
  }

  /**
   * Otherwise they hold the scanned value of the last such parameter whose
   * value scans: a later value that does not scan leaves it unchanged.
   */
  lemma NumberSlotLastScannedWins(ps: seq<Param>, s: Slot, i: nat)
    requires s in {Db, Expiration}
    requires i < |ps| && SlotOf(Lower(ps[i].inputName)) == Some(s) && ScanInt(TrimSpace(ps[i].compValue)).Some?
    requires forall j :: i < j < |ps| && SlotOf(Lower(ps[j].inputName)) == Some(s) ==> ScanInt(TrimSpace(ps[j].compValue)).None?
    ensures Get(Normalize(ps), s) == Num(ScanInt(TrimSpace(ps[i].compValue)).value)
  {
    NumberAssigns(ps[i], s);
    NoNumberAssigner(ps, s, i);
    LastAssignmentAt(ps, s, i);
  }

  /** A parameter that assigns nothing (unknown name, blank action, unscannable number) leaves every variable alone. */
  lemma IneffectiveStep(f: Fields, p: Param)
    requires Assignment(p).None?
    ensures Step(f, p) == f
  {
  }

  /** The parameters that assign something, in their original order. */
  function Effective(ps: seq<Param>): (r: seq<Param>)
    ensures |r| <= |ps|
    ensures forall p :: p in r ==> p in ps && Assignment(p).Some?
    ensures forall p :: p in ps && Assignment(p).Some? ==> p in r
  {
    if ps == [] then []
    else if Assignment(ps[|ps| - 1]).Some? then Effective(ps[..|ps| - 1]) + [ps[|ps| - 1]]
    else Effective(ps[..|ps| - 1])
  }

  /** Dropping every parameter that assigns nothing does not change the outcome. */
  lemma {:induction false} IneffectiveIgnored(ps: seq<Param>)
    ensures Normalize(Effective(ps)) == Normalize(ps)
  {
    if ps != [] {
      var init := ps[..|ps| - 1];
      IneffectiveIgnored(init);
      if Assignment(ps[|ps| - 1]).Some? {
        var e := Effective(init) + [ps[|ps| - 1]];
        assert e[..|e| - 1] == Effective(init);
      }
    }
  }

  /** Two parameters are interchangeable when their names lower-case alike and their values trim alike. */
  predicate SameMeaning(p: Param, q: Param) {
    Lower(p.inputName) == Lower(q.inputName) && TrimSpace(p.compValue) == TrimSpace(q.compValue)
  }

  /** Names are matched without regard to ASCII case and values without regard to surrounding white space. */
  lemma {:induction false} CaseAndPaddingIgnored(ps: seq<Param>, qs: seq<Param>)
    requires |ps| == |qs|
    requires forall i :: 0 <= i < |ps| ==> SameMeaning(ps[i], qs[i])
    ensures Normalize(ps) == Normalize(qs)
  {
    if ps != [] {
      CaseAndPaddingIgnored(ps[..|ps| - 1], qs[..|qs| - 1]);
    }
  }

  /** The action is never empty and always lower-case; `db` and `expiration` always fit in 64 bits. */
  lemma {:induction false} NormalizeInvariant(ps: seq<Param>)
    ensures Normalize(ps).action != "" && IsLowerCase(Normalize(ps).action)
    ensures MinInt64 <= Normalize(ps).db <= MaxInt64
    ensures MinInt64 <= Normalize(ps).expiration <= MaxInt64
  {
    if ps != [] {
      NormalizeInvariant(ps[..|ps| - 1]);
      var p := ps[|ps| - 1];
      LowerFixesLowerCase(TrimSpace(p.compValue));
    } else {
      assert IsLowerCase("get");
    }
  }
}
