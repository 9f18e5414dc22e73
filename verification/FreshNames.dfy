/** The name generator of the Python client: the regular expression that splits off a trailing number, the
    successor of a name, and the search for an unused one.
 */
module FreshNames {

  datatype Option<T> = None | Some(value: T)

  // The regular expression ^(?P<prefix>.*[^0-9])?(?P<number>[0-9]+)?$

  predicate IsDigit(c: char) {
    '0' <= c <= '9'
  }

  /** Where `.*` stops: at the first newline from `i` on, or at the end. */
  function LineEnd(x: string, i: nat): (e: nat)
    requires i <= |x|
    ensures i <= e <= |x| && (e < |x| ==> x[e] == '\n') && forall k :: i <= k < e ==> x[k] != '\n'
    decreases |x| - i
  {
    if i == |x| || x[i] == '\n' then i else LineEnd(x, i + 1)
  }

  /** Where `[0-9]+` stops. */
  function DigitsEnd(x: string, i: nat): (e: nat)
    requires i <= |x|
    ensures i <= e <= |x| && (e < |x| ==> !IsDigit(x[e])) && forall k :: i <= k < e ==> IsDigit(x[k])
    decreases |x| - i
  {
    if i == |x| || !IsDigit(x[i]) then i else DigitsEnd(x, i + 1)
  }

  /** `$`: at the end, or before a newline that ends the string. */
  predicate AtEnd(x: string, p: nat) {
    p == |x| || (p == |x| - 1 && x[p] == '\n')
  }

  datatype Match = NoMatch | Match(prefix: Option<string>, number: Option<string>)

  /** The groups when the prefix ends before `j` and all digits that follow are taken. */
  function Groups(x: string, prefix: Option<string>, j: nat): Match
    requires j <= |x|
  {
    var d := DigitsEnd(x, j);
    if AtEnd(x, d) then Match(prefix, if d == j then None else Some(x[j..d])) else NoMatch
  }

  /** Backtracking: `.*` takes `j` characters, then fewer and fewer, and in the end there is no prefix. */
  function Search(x: string, j: int): Match
    requires -1 <= j <= |x|
    decreases j + 1
  {
    if j == -1 then Groups(x, None, 0)
    else if j < |x| && !IsDigit(x[j]) && Groups(x, Some(x[..j + 1]), j + 1).Match? then
      Groups(x, Some(x[..j + 1]), j + 1)
    else Search(x, j - 1)
  }

  function Parse(x: string): Match {
    Search(x, LineEnd(x, 0))
  }

  // Numbers

  predicate AllDigits(s: string) {
    forall i :: 0 <= i < |s| ==> IsDigit(s[i])
  }

  function Digit(n: nat): (c: char)
    requires n < 10
    ensures IsDigit(c)
  {
    ('0' as nat + n) as char
  }

  function Decimal(n: nat): (s: string)
    ensures |s| > 0 && AllDigits(s)
  {
    if n < 10 then [Digit(n)] else Decimal(n / 10) + [Digit(n % 10)]
  }

  function Value(s: string): nat
    requires AllDigits(s)
  {
    if |s| == 0 then 0 else
    assert IsDigit(s[|s| - 1]);
    10 * Value(s[..|s| - 1]) + (s[|s| - 1] as int - '0' as int)
  }

  lemma {:induction false} ValueOfDecimal(n: nat)
    ensures Value(Decimal(n)) == n
  {
    if n >= 10 {
      ValueOfDecimal(n / 10);
      assert Decimal(n)[..|Decimal(n)| - 1] == Decimal(n / 10);
    }
  }

  // The successor of a name

  lemma GroupsAreDigits(x: string, j: int)
    requires -1 <= j <= |x|
    ensures var m := Search(x, j); m.Match? && m.number.Some? ==> AllDigits(m.number.value)
  {
  }

  function NextName(x: string): string {
    GroupsAreDigits(x, LineEnd(x, 0));
    match Parse(x)
    case NoMatch => "x"
    case Match(prefix, number) =>
      (if prefix.Some? then prefix.value else "x") + Decimal(if number.Some? then Value(number.value) + 1 else 0)
  }

  /** A prefix as the expression finds one: it ends in no digit, and a newline can only be its end. */
  predicate IsPrefix(p: string) {
    |p| > 0 && !IsDigit(p[|p| - 1]) && forall i :: 0 <= i < |p| - 1 ==> p[i] != '\n'
  }

  lemma {:induction false} SearchFindsPrefix(x: string, j: int)
    requires -1 <= j <= LineEnd(x, 0)
    ensures var m := Search(x, j); m.Match? && m.prefix.Some? ==> IsPrefix(m.prefix.value)
    decreases j + 1
  {
    if j >= 0 {
      SearchFindsPrefix(x, j - 1);
    }
  }

  /** The search passes over digits. */
  lemma {:induction false} SearchSkips(x: string, j: int, k: int)
    requires -1 <= k <= j <= |x| && forall i :: k < i <= j && i < |x| ==> IsDigit(x[i])
    ensures Search(x, j) == Search(x, k)
    decreases j
  {
    if j > k {
      SearchSkips(x, j - 1, k);
    }
  }

  /** The expression takes a name apart into its prefix and the digits at its end, leading zeros included. */
  lemma ParseNumbered(p: string, s: string)
    requires IsPrefix(p) && AllDigits(s)
    ensures Parse(p + s) == Match(Some(p), if s == "" then None else Some(s))
  {
    var x := p + s;
    var k := |p| - 1;
    assert x[..|p|] == p && x[|p|..] == s;
    assert forall i :: |p| <= i < |x| ==> IsDigit(x[i]);
    assert DigitsEnd(x, |p|) == |x|;
    assert x[..k + 1] == p && x[|p|..|x|] == s;
    assert x[k] == p[k] && Groups(x, Some(p), k + 1).Match?;
    assert forall i :: 0 <= i < k ==> x[i] == p[i];
    assert k <= LineEnd(x, 0);
    SearchSkips(x, LineEnd(x, 0), k);
  }

  /** With digits alone there is no prefix. */
  lemma ParseDigits(s: string)
    requires AllDigits(s)
    ensures Parse(s) == Match(None, if s == "" then None else Some(s))
  {
    SearchSkips(s, LineEnd(s, 0), -1);
    assert s[0..|s|] == s;
  }

  /** The successor of every name on one line: the prefix, or `x`, and the number after the name's own. */
  lemma NextOfName(p: string, s: string)
    requires (IsPrefix(p) || p == "") && AllDigits(s)
    ensures NextName(p + s) == (if p == "" then "x" else p) + Decimal(if s == "" then 0 else Value(s) + 1)
  {
    hide *;
    var number := if s == "" then None else Some(s);
    if p == "" {
      assert p + s == s;
      ParseDigits(s);
      NextOfMatch(s, None, number);
    } else {
      ParseNumbered(p, s);
      NextOfMatch(p + s, Some(p), number);
    }
  }

  lemma NextOfMatch(x: string, prefix: Option<string>, number: Option<string>)
    requires Parse(x) == Match(prefix, number) && (number.Some? ==> AllDigits(number.value))
    ensures NextName(x)
         == (if prefix.Some? then prefix.value else "x") + Decimal(if number.Some? then Value(number.value) + 1 else 0)
  {
    hide Search, LineEnd, Parse, Decimal;
  }

  /** Every name on one line is such a prefix and such digits. */
  lemma {:induction false} NameParts(x: string) returns (p: string, s: string)
    requires forall i :: 0 <= i < |x| ==> x[i] != '\n'
    ensures x == p + s && (IsPrefix(p) || p == "") && AllDigits(s)
  {
    if x == "" || !IsDigit(x[|x| - 1]) {
      p, s := x, "";
    } else {
      p, s := NameParts(x[..|x| - 1]);
      s := s + [x[|x| - 1]];
    }
  }

  /** Reparsing a printed name gives its prefix and its number back. */
  lemma Reparse(p: string, n: nat)
    requires IsPrefix(p)
    ensures Parse(p + Decimal(n)) == Match(Some(p), Some(Decimal(n)))
    ensures NextName(p + Decimal(n)) == p + Decimal(n + 1)
  {
    ParseNumbered(p, Decimal(n));
    ValueOfDecimal(n);
  }

  /** Whatever the name, its successor is a prefix and a number, or the bare `x`. */
  lemma NextIsPrinted(x: string) returns (p: string, n: nat)
    ensures IsPrefix(p) && (NextName(x) == p + Decimal(n) || (Parse(x) == NoMatch && NextName(x) == "x"))
  {
    SearchFindsPrefix(x, LineEnd(x, 0));
    GroupsAreDigits(x, LineEnd(x, 0));
    match Parse(x)
    case NoMatch =>
      p, n := "x", 0;
    case Match(prefix, number) =>
      p := if prefix.Some? then prefix.value else "x";
      n := if number.Some? then Value(number.value) + 1 else 0;
  }

  lemma NextOfX()
    ensures NextName("x") == "x" + Decimal(0)
  {
    NextOfName("x", "");
    assert "x" + "" == "x";
  }

  lemma DecimalInjective(p: string, m: nat, n: nat)
    requires p + Decimal(m) == p + Decimal(n)
    ensures m == n
  {
    assert (p + Decimal(m))[|p|..] == Decimal(m) && (p + Decimal(n))[|p|..] == Decimal(n);
    ValueOfDecimal(m);
    ValueOfDecimal(n);
  }

  /** The name after `k` successions. */
  function Successor(x: string, k: nat): string {
    if k == 0 then x else NextName(Successor(x, k - 1))
  }

  /** `x` comes `k` successions after `x0`, and the names before it are used. */
  ghost predicate ReachedAfter(x0: string, x: string, used: set<string>, k: nat) {
    x == Successor(x0, k) && forall i: nat :: i < k ==> Successor(x0, i) in used
  }

  /** All printed names from number `n` on that are used are still ahead. */
  ghost predicate Ahead(used: set<string>, left: set<string>, p: string, n: nat) {
    forall m: nat :: n <= m && p + Decimal(m) in used ==> p + Decimal(m) in left
  }

  lemma AheadStep(used: set<string>, left: set<string>, p: string, n: nat)
    requires Ahead(used, left, p, n)
    ensures Ahead(used, left - {p + Decimal(n)}, p, n + 1)
  {
    hide Decimal;
    forall m: nat | n + 1 <= m && p + Decimal(m) in used ensures p + Decimal(m) in left - {p + Decimal(n)} {
      if p + Decimal(m) == p + Decimal(n) {
        DecimalInjective(p, m, n);
      }
    }
  }

  /** The first unused name among the successors of `x0`: the search ends for every string and every finite
      set, because printed names do not come back. */
  method Uniquify(x0: string, used: set<string>) returns (x: string)
    ensures x !in used
    ensures exists k: nat :: ReachedAfter(x0, x, used, k)
  {
    hide Decimal, NextName, Parse;
    x := x0;
    ghost var k := 0;
    ghost var stage, p, n, left := 2, "x", 0, used;
    while x in used
      invariant k >= 0 && ReachedAfter(x0, x, used, k)
      invariant 0 <= stage <= 2 && n >= 0 && (stage == 1 ==> x == "x")
      invariant stage == 0 ==> IsPrefix(p) && x == p + Decimal(n) && Ahead(used, left, p, n)
      invariant stage != 0 ==> left == used
      decreases stage, |left|
    {
      if stage == 0 {
        Reparse(p, n);
        AheadStep(used, left, p, n);
        assert x in left;
        left, n := left - {x}, n + 1;
      } else {
        ghost var bare := stage == 1;
        p, n := NextIsPrinted(x);
        NextOfX();
        if bare {
          p, n := "x", 0;
        }
        stage := if NextName(x) == p + Decimal(n) then 0 else 1;
      }
      x, k := NextName(x), k + 1;
    }
  }

  lemma FirstUnused(x0: string, x: string, used: set<string>)
    requires exists k: nat :: ReachedAfter(x0, x, used, k)
    ensures x0 !in used ==> x == x0
  {
    hide NextName;
    var k: nat :| ReachedAfter(x0, x, used, k);
    if k > 0 {
      assert Successor(x0, 0) in used;
    }
  }

  // Contracts

  ghost predicate AllDifferent(names: seq<string>) {
    forall i, j :: 0 <= i < j < |names| ==> names[i] != names[j]
  }

  function VarNames<T>(vars: seq<FreshVar<T>>): (names: seq<string>)
    ensures |names| == |vars|
  {
    seq(|vars|, i requires 0 <= i < |vars| => vars[i].name)
  }

  lemma AppendedNames<T>(pre: seq<FreshVar<T>>, post: seq<FreshVar<T>>, v: FreshVar<T>)
    ensures VarNames(pre) + VarNames(post + [v]) == VarNames(pre) + VarNames(post) + [v.name]
  {
  }

  lemma InsertedNames<T>(pre: seq<FreshVar<T>>, post: seq<FreshVar<T>>, v: FreshVar<T>)
    requires AllDifferent(VarNames(pre) + VarNames(post)) && v.name !in VarNames(pre) + VarNames(post)
    ensures AllDifferent(VarNames(pre + [v]) + VarNames(post))
    ensures forall x :: x in VarNames(pre + [v]) + VarNames(post) ==> x == v.name || x in VarNames(pre) + VarNames(post)
  {
    var names := VarNames(pre) + VarNames(post);
    assert VarNames(pre + [v]) + VarNames(post) == names[..|pre|] + [v.name] + names[|pre|..];
  }

  datatype ContractState = Pre | Post | Done

  datatype FreshVar<T> = FreshVar(ty: T, name: string)

  datatype Result<R> = Ok(result: R) | Error(message: string)

  class Contract<T(0)> {
    var usedNames: set<string>
    var state: ContractState
    var preFresh: seq<FreshVar<T>>
    var postFresh: seq<FreshVar<T>>
    var arguments: Option<seq<T>>

    constructor ()
      ensures usedNames == {} && state == Pre && preFresh == [] && postFresh == [] && arguments == None
    {
      usedNames, state, preFresh, postFresh, arguments := {}, Pre, [], [], None;
    }

    /** The names of all fresh variables. */
    ghost function Names(): seq<string>
      reads this
    {
      VarNames(preFresh) + VarNames(postFresh)
    }

    /** Fresh variables have different names, all of them used. */
    ghost predicate Valid()
      reads this
    {
      AllDifferent(Names()) && forall x :: x in Names() ==> x in usedNames
    }

    /** A contract is executed once, and only before its postcondition. */
    method ExecuteFunc(args: seq<T>) returns (r: Result<()>)
      modifies this`state, this`arguments
      ensures r.Ok? <==> old(arguments.None? && state == Pre)
      ensures r.Ok? ==> state == Post && arguments == Some(args)
      ensures r.Error? ==> state == old(state) && arguments == old(arguments)
    {
      if arguments.Some? {
        return Error("already called");
      } else if state != Pre {
        return Error("wrong state");
      }
      arguments, state := Some(args), Post;
      r := Ok(());
    }

    method GetFreshName(hint: string) returns (name: string)
      modifies this`usedNames
      ensures name !in old(usedNames) && usedNames == old(usedNames) + {name}
      ensures hint !in old(usedNames) ==> name == hint
    {
      name := Uniquify(hint, usedNames);
      FirstUnused(hint, name, usedNames);
      usedNames := usedNames + {name};
    }

    /** A new variable, in the part of the contract that is being written.  A suggested name is used up, and
        the variable never gets it. */
    method NewFreshVar(ty: T, suggested: Option<string>) returns (r: Result<FreshVar<T>>)
      requires Valid()
      modifies this`usedNames, this`preFresh, this`postFresh
      ensures Valid() && old(usedNames) <= usedNames
      ensures r.Ok? <==> state != Done
      ensures r.Ok? ==> r.result.ty == ty && r.result.name !in old(usedNames) && r.result.name in usedNames
      ensures r.Ok? ==> preFresh == old(preFresh) + if state == Pre then [r.result] else []
      ensures r.Ok? ==> postFresh == old(postFresh) + if state == Post then [r.result] else []
      ensures r.Error? ==> preFresh == old(preFresh) && postFresh == old(postFresh)
      ensures r.Ok? && suggested.Some? ==> r.result.name != suggested.value && suggested.value in usedNames
    {
      ghost var names := Names();
      var hint := "x";
      if suggested.Some? {
        hint := GetFreshName(suggested.value);
      }
      var freshName := GetFreshName(hint);
      var v := FreshVar(ty, freshName);
      assert freshName !in names;
      if state == Pre {
        preFresh := preFresh + [v];
        InsertedNames(old(preFresh), old(postFresh), v);
      } else if state == Post {
        postFresh := postFresh + [v];
        AppendedNames(old(preFresh), old(postFresh), v);
      } else {
        return Error("wrong state");
      }
      r := Ok(v);
    }
  }

  // Runs

  datatype Operation<T> = Fresh(hint: string) | Variable(ty: T, suggested: Option<string>) | Execute(args: seq<T>)

  /** In any run of a contract's operations all names handed out, to variables and to allocations, are
      pairwise different. */
  method Run<T(0)>(contract: Contract<T>, operations: seq<Operation<T>>) returns (handed: seq<string>)
    requires contract.Valid() && contract.state != Done
    modifies contract
    ensures contract.Valid() && AllDifferent(handed)
    ensures forall x :: x in handed ==> x !in old(contract.usedNames) && x in contract.usedNames
  {
    hide AllDifferent;
    handed := [];
    NoneHanded();
    var i := 0;
    while i < |operations|
      invariant 0 <= i <= |operations| && contract.Valid() && contract.state != Done && AllDifferent(handed)
      invariant old(contract.usedNames) <= contract.usedNames
      invariant forall x :: x in handed ==> x !in old(contract.usedNames) && x in contract.usedNames
    {
      match operations[i] {
        case Fresh(hint) =>
          var name := contract.GetFreshName(hint);
          OneMoreHanded(handed, name);
          handed := handed + [name];
        case Variable(ty, suggested) =>
          var r := contract.NewFreshVar(ty, suggested);
          OneMoreHanded(handed, r.result.name);
          handed := handed + [r.result.name];
        case Execute(args) =>
          var r := contract.ExecuteFunc(args);
      }
      i := i + 1;
    }
  }

  lemma NoneHanded()
    ensures AllDifferent([])
  {
  }

  lemma OneMoreHanded(handed: seq<string>, name: string)
    requires AllDifferent(handed) && name !in handed
    ensures AllDifferent(handed + [name])
  {
  }
}
