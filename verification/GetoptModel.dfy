/**
  Option parsing as a left-to-right scan of the arguments, and as single steps
  that put the arguments they use in front of the ones they skip.
*/
module GetoptModel {
  import opened Common

  datatype ArgType = Unknown | NoArg | Required | Optional

  /** What a call returns: an option, the end of the options, or '?'. */
  datatype Result = Opt(c: char, arg: Option<string>) | End | Invalid(c: char) | Missing(c: char)

  predicate IsDashDash(a: string) { a == "--" }

  predicate IsShort(a: string) { |a| >= 2 && a[0] == '-' && a[1] != '-' }

  /** Behind the characters of a C string stands a zero. */
  const NUL: char := '\0'

  /** What `optstring` says of option `c`: the colons behind its first occurrence. */
  function TypeOf(optstring: string, c: char): (t: ArgType)
    ensures c == NUL ==> t == Unknown
  {
    if c == ':' || optstring == "" || optstring[0] == NUL then Unknown
    else if optstring[0] != c then TypeOf(optstring[1..], c)
    else if |optstring| > 1 && optstring[1] == ':' then
      if |optstring| > 2 && optstring[2] == ':' then Optional else Required
    else NoArg
  }

  /** One call on the arguments from `optind` on: its result, the arguments it used, the ones left, and `subopt`. */
  datatype Outcome = Outcome(r: Result, used: seq<string>, rest: seq<string>, sub: nat)

  /** The character a call looks at: the one at place `at` of `arg`. */
  datatype Look = Look(arg: string, at: nat)

  /** A call that does not return before looks behind the `sub` options of the group already returned. */
  ghost function Looks(args: seq<string>, sub: nat, permute: bool): (k: Option<Look>)
    ensures k.Some? ==> IsShort(k.value.arg) && k.value.at == sub + 1
  {
    if args == [] || IsDashDash(args[0]) then None
    else if IsShort(args[0]) then Some(Look(args[0], sub + 1))
    else if permute then Looks(args[1..], sub, permute)
    else None
  }

  /** What a call looks at is in the argument, or is the zero behind it. */
  ghost predicate Ready(args: seq<string>, sub: nat, permute: bool) {
    var k := Looks(args, sub, permute);
    k.Some? ==> k.value.at <= |k.value.arg|
  }

  /** It is one of the options of the argument. */
  ghost predicate AtOption(args: seq<string>, sub: nat, permute: bool) {
    var k := Looks(args, sub, permute);
    k.Some? ==> k.value.at < |k.value.arg|
  }

  /** The first argument is a group, and `sub` of its options have been returned. */
  ghost predicate InGroup(args: seq<string>, sub: nat) {
    args != [] && IsShort(args[0]) && sub + 1 <= |args[0]|
  }

  /** The option behind the `sub` returned ones, zero behind the last one. */
  function OptionAt(a: string, sub: nat): (c: char)
    requires sub + 1 <= |a|
  {
    if sub + 1 < |a| then a[sub + 1] else NUL
  }

  /** What stands behind that option. */
  function TailAt(a: string, sub: nat): (tail: string)
    requires sub + 1 <= |a|
    ensures tail != "" ==> sub + 2 < |a|
  {
    if sub + 1 < |a| then a[sub + 2..] else ""
  }

  ghost function TakeOption(args: seq<string>, sub: nat, optstring: string): (o: Outcome)
    requires InGroup(args, sub)
  {
    var a := args[0];
    var c, tail := OptionAt(a, sub), TailAt(a, sub);
    match TypeOf(optstring, c)
    case Unknown => Outcome(Invalid(c), args[..1], args[1..], sub)
    case NoArg => if tail != "" then Outcome(Opt(c, None), [], args, sub + 1) else Outcome(Opt(c, None), args[..1],
      args[1..], 0)
    case Required =>
      if tail != "" then Outcome(Opt(c, Some(tail)), args[..1], args[1..], 0)
      else if |args| > 1 then Outcome(Opt(c, Some(args[1])), args[..2], args[2..], 0)
      else Outcome(Missing(c), args[..1], [], 0)
    case Optional => Outcome(Opt(c, if tail != "" then Some(tail) else None), args[..1], args[1..], 0)
  }

  /** One call. */
  ghost function Step(args: seq<string>, sub: nat, optstring: string, permute: bool): (o: Outcome)
    requires Ready(args, sub, permute)
  {
    if args == [] then Outcome(End, [], [], sub)
    else if IsDashDash(args[0]) then Outcome(End, args[..1], args[1..], sub)
    else if IsShort(args[0]) then TakeOption(args, sub, optstring)
    else if !permute then Outcome(End, [], args, sub)
    else var o := Step(args[1..], sub, optstring, permute); o.(rest := [args[0]] + o.rest)
  }

  lemma Moved(a: string, used: seq<string>, rest: seq<string>, tail: seq<string>)
    requires multiset(used + rest) == multiset(tail)
    ensures multiset(used + ([a] + rest)) == multiset([a] + tail)
  {
    assert multiset(used + ([a] + rest)) == multiset(used) + (multiset([a]) + multiset(rest));
    assert multiset(used + rest) == multiset(used) + multiset(rest);
  }

  lemma TakeRearranges(args: seq<string>, sub: nat, optstring: string)
    requires InGroup(args, sub)
    ensures var o := TakeOption(args, sub, optstring); o.used + o.rest == args
  {
  }

  /** Used and remaining arguments are the given ones, rearranged. */
  lemma {:induction false} StepRearranges(args: seq<string>, sub: nat, optstring: string, permute: bool)
    requires Ready(args, sub, permute)
    ensures var o := Step(args, sub, optstring, permute); multiset(o.used + o.rest) == multiset(args)
  {
    if args == [] || IsDashDash(args[0]) {
      assert args == [] || args[..1] + args[1..] == args;
    } else if IsShort(args[0]) {
      TakeRearranges(args, sub, optstring);
    } else if !permute {
      assert [] + args == args;
    } else {
      StepRearranges(args[1..], sub, optstring, permute);
      var p := Step(args[1..], sub, optstring, permute);
      Moved(args[0], p.used, p.rest, args[1..]);
      assert args == [args[0]] + args[1..];
    }
  }

  lemma {:induction false} StepReady(args: seq<string>, sub: nat, optstring: string, permute: bool)
    requires Ready(args, sub, permute)
    ensures var o := Step(args, sub, optstring, permute); o.r.Opt? ==> Ready(o.rest, o.sub, permute)
  {
    if args != [] && !IsDashDash(args[0]) && !IsShort(args[0]) && permute {
      StepReady(args[1..], sub, optstring, permute);
      var p := Step(args[1..], sub, optstring, permute);
      assert ([args[0]] + p.rest)[1..] == p.rest;
    }
  }

  // ---------------------------------------------------------- after a refusal

  /** The first argument that is not skipped. */
  ghost function FirstStop(args: seq<string>, permute: bool): (a: Option<string>) {
    if args == [] then None
    else if IsDashDash(args[0]) || IsShort(args[0]) || !permute then Some(args[0])
    else FirstStop(args[1..], permute)
  }

  /** The arguments behind it. */
  ghost function Behind(args: seq<string>, permute: bool): (rest: seq<string>) {
    if args == [] then []
    else if IsDashDash(args[0]) || IsShort(args[0]) || !permute then args[1..]
    else Behind(args[1..], permute)
  }

  lemma {:induction false} LooksAtStop(args: seq<string>, sub: nat, permute: bool)
    ensures var stop := FirstStop(args, permute);
            Looks(args, sub, permute) ==
              if stop.Some? && IsShort(stop.value) then Some(Look(stop.value, sub + 1)) else None
  {
    if args != [] && !IsDashDash(args[0]) && !IsShort(args[0]) && permute {
      LooksAtStop(args[1..], sub, permute);
    }
  }

  /** A refused option takes its argument away and nothing else; `subopt` stays. */
  lemma {:induction false} RefusalLeaves(args: seq<string>, sub: nat, optstring: string, permute: bool)
    requires Ready(args, sub, permute) && Step(args, sub, optstring, permute).r.Invalid?
    ensures var o := Step(args, sub, optstring, permute);
            o.sub == sub && FirstStop(o.rest, permute) == FirstStop(Behind(args, permute), permute)
  {
    if args != [] && !IsDashDash(args[0]) && !IsShort(args[0]) && permute {
      RefusalLeaves(args[1..], sub, optstring, permute);
      var p := Step(args[1..], sub, optstring, permute);
      assert ([args[0]] + p.rest)[1..] == p.rest;
    }
  }

  /**
    After a refused option, let `stop` be the next argument that is not skipped. If it
    is a group, the next call looks behind as many of its options as had been returned
    of the refused one's group. It looks inside the argument, or at the zero that ends
    it, exactly if the group has that many; it looks at an option exactly if it has
    more. At the end of the arguments, at "--", and at a plain argument that is not
    skipped it looks at nothing.
  */
  lemma AfterRefusal(args: seq<string>, sub: nat, optstring: string, permute: bool)
    requires Ready(args, sub, permute) && Step(args, sub, optstring, permute).r.Invalid?
    ensures var o, stop := Step(args, sub, optstring, permute), FirstStop(Behind(args, permute), permute);
      && (Ready(o.rest, o.sub, permute) <==> (stop.Some? && IsShort(stop.value) ==> sub <= |stop.value| - 1))
      && (AtOption(o.rest, o.sub, permute) <==> (stop.Some? && IsShort(stop.value) ==> sub < |stop.value| - 1))
  {
    RefusalLeaves(args, sub, optstring, permute);
    LooksAtStop(Step(args, sub, optstring, permute).rest, sub, permute);
  }

  /** No argument has a zero among its characters. */
  ghost predicate CStrings(args: seq<string>) {
    forall i :: 0 <= i < |args| ==> NUL !in args[i]
  }

  /** A call that looks at the zero refuses an option nobody wrote, and only such a call does. */
  lemma {:induction false} ZeroRefused(args: seq<string>, sub: nat, optstring: string, permute: bool)
    requires Ready(args, sub, permute) && CStrings(args)
    ensures Step(args, sub, optstring, permute).r == Invalid(NUL) <==> !AtOption(args, sub, permute)
  {
    if args != [] && !IsDashDash(args[0]) && !IsShort(args[0]) && permute {
      ZeroRefused(args[1..], sub, optstring, permute);
    } else if args != [] && sub + 1 < |args[0]| {
      assert args[0][sub + 1] in args[0];
    }
  }

  /** After "-ab" with `b` unknown, the option `c` of "-c" is not found: a zero is refused in its place. */
  lemma RefusedInGroup()
    ensures Ready(["-ab", "-c"], 1, true)
    ensures var o := Step(["-ab", "-c"], 1, "ac", true);
            o.r == Invalid('b') && o.rest == ["-c"] && Ready(o.rest, o.sub, true) && !AtOption(o.rest, o.sub, true)
            && Step(o.rest, o.sub, "ac", true).r == Invalid(NUL)
  {
    assert "ac"[1..] == "c" && "c"[1..] == "";
    assert TypeOf("ac", 'b') == Unknown;
    assert ["-ab", "-c"][1..] == ["-c"];
  }

  /** After "-abc" with `c` unknown, the call at "-d" looks behind the zero. */
  lemma ReadBeyond()
    ensures Ready(["-abc", "-d"], 2, true)
    ensures var o := Step(["-abc", "-d"], 2, "abd", true);
            o.r == Invalid('c') && o.rest == ["-d"] && !Ready(o.rest, o.sub, true)
  {
    assert "abd"[1..] == "bd" && "bd"[1..] == "d" && "d"[1..] == "";
    assert TypeOf("abd", 'c') == Unknown;
    assert ["-abc", "-d"][1..] == ["-d"];
  }

  /** After "-ab" with `b` unknown it is safe at the end, before "--", and before a plain argument that stops. */
  lemma RefusedAtEnd()
    ensures Ready([], 1, true) && Ready(["--", "x"], 1, true) && Ready(["x"], 1, false)
    ensures Step([], 1, "a", true).r == Step(["--", "x"], 1, "a", true).r == Step(["x"], 1, "a", false).r == End
  {
  }

  // ------------------------------------------------------------- a whole parse

  /** The options found, and the arguments left or the fault met. */
  datatype Parse = Parse(events: seq<Result>, end: Ending)
  datatype Ending = Done(rest: seq<string>) | Fault(r: Result)

  ghost function Total(args: seq<string>): (n: nat) {
    if args == [] then 0 else |args[0]| + 1 + Total(args[1..])
  }

  /** The simple scan: from left to right, options are reported and other arguments collected. */
  ghost function Scan(args: seq<string>, sub: nat, optstring: string, permute: bool): (p: Parse)
    requires Ready(args, sub, permute)
    decreases |args|, if args == [] then 0 else if sub <= |args[0]| then |args[0]| - sub else 0
  {
    if args == [] then Parse([], Done([]))
    else if IsDashDash(args[0]) then Parse([], Done(args[1..]))
    else if !IsShort(args[0]) then
      if !permute then Parse([], Done(args))
      else
        var p := Scan(args[1..], sub, optstring, permute);
        p.(end := match p.end case Done(rest) => Done([args[0]] + rest) case Fault(r) => Fault(r))
    else
      var a := args[0];
      var c, tail := OptionAt(a, sub), TailAt(a, sub);
      match TypeOf(optstring, c)
      case Unknown => Parse([], Fault(Invalid(c)))
      case NoArg => Found(Opt(c, None), if tail != "" then Scan(args, sub + 1, optstring,
        permute) else Scan(args[1..], 0, optstring, permute))
      case Required =>
        if tail != "" then Found(Opt(c, Some(tail)), Scan(args[1..], 0, optstring, permute))
        else if |args| > 1 then Found(Opt(c, Some(args[1])), Scan(args[2..], 0, optstring, permute))
        else Parse([], Fault(Missing(c)))
      case Optional => Found(Opt(c, if tail != "" then Some(tail) else None), Scan(args[1..], 0, optstring, permute))
  }

  ghost function Found(r: Result, p: Parse): (q: Parse) {
    p.(events := [r] + p.events)
  }

  /** A call finds the first thing the scan finds, and leaves arguments on which the scan finds the rest. */
  lemma {:induction false} StepScans(args: seq<string>, sub: nat, optstring: string, permute: bool)
    requires Ready(args, sub, permute)
    ensures var o := Step(args, sub, optstring, permute);
      && (o.r.Opt? ==> Ready(o.rest, o.sub, permute))
      && Scan(args, sub, optstring, permute) ==
         match o.r
         case Opt(_, _) => Found(o.r, Scan(o.rest, o.sub, optstring, permute))
         case End => Parse([], Done(o.rest))
         case _ => Parse([], Fault(o.r))
  {
    StepReady(args, sub, optstring, permute);
    if args != [] && !IsDashDash(args[0]) && !IsShort(args[0]) && permute {
      StepScans(args[1..], sub, optstring, permute);
      var p := Step(args[1..], sub, optstring, permute);
      assert ([args[0]] + p.rest)[1..] == p.rest;
    }
  }

  /** Every option found brings the end nearer. */
  ghost function Left(args: seq<string>, sub: nat): (n: int) {
    Total(args) - sub
  }

  lemma {:induction false} StepShrinks(args: seq<string>, sub: nat, optstring: string, permute: bool)
    requires Ready(args, sub, permute)
    ensures var o := Step(args, sub, optstring, permute); o.r.Opt? ==> 0 <= Left(o.rest, o.sub) < Left(args, sub)
  {
    StepReady(args, sub, optstring, permute);
    var o := Step(args, sub, optstring, permute);
    if args != [] && !IsDashDash(args[0]) && !IsShort(args[0]) && permute {
      StepShrinks(args[1..], sub, optstring, permute);
      var p := Step(args[1..], sub, optstring, permute);
      assert ([args[0]] + p.rest)[1..] == p.rest;
    } else if args != [] && IsShort(args[0]) {
      assert Total(args) == |args[0]| + 1 + Total(args[1..]);
      assert |args| > 1 ==> args[2..] == args[1..][1..];
    }
  }

  // ---------------------------------------------------- what the colons mean

  /** Behind an option no colon means a flag, one a required argument, two an optional one. */
  lemma {:induction false} Colons(pre: string, c: char, suf: string)
    requires c != ':' && c != NUL && c !in pre && NUL !in pre
    ensures var t := TypeOf(pre + [c] + suf, c);
      && (t == NoArg <==> !(":" <= suf))
      && (t == Required <==> ":" <= suf && !("::" <= suf))
      && (t == Optional <==> "::" <= suf)
  {
    var s := pre + [c] + suf;
    if pre == "" {
      assert s[1..] == suf;
    } else {
      assert s[1..] == pre[1..] + [c] + suf && s[0] == pre[0];
      Colons(pre[1..], c, suf);
    }
  }

  /** At or behind the zero that ends a C string. */
  ghost predicate PastEnd(s: string, i: nat)
    requires i < |s|
  {
    NUL in s[..i + 1]
  }

  /** An option is unknown exactly if it is the colon or does not occur before the end of the string. */
  lemma {:induction false} UnknownExactly(optstring: string, c: char)
    ensures TypeOf(optstring, c) == Unknown <==>
            c == ':' || forall i :: 0 <= i < |optstring| && optstring[i] == c ==> PastEnd(optstring, i)
  {
    if c == ':' || optstring == "" {
    } else if optstring[0] == NUL {
      forall i | 0 <= i < |optstring| ensures PastEnd(optstring, i) {
        assert optstring[..i + 1][0] == NUL;
      }
    } else if optstring[0] == c {
      assert optstring[..0 + 1] == [c];
      assert !PastEnd(optstring, 0);
    } else {
      var r := optstring[1..];
      UnknownExactly(r, c);
      forall i | 0 <= i < |r| ensures PastEnd(optstring, i + 1) == PastEnd(r, i) && optstring[i + 1] == r[i] {
        assert optstring[..i + 2] == [optstring[0]] + r[..i + 1];
      }
      assert forall i :: 0 < i < |optstring| ==> optstring[i] == r[i - 1];
    }
  }

  /** The options of a usage string in which `c` is followed by `suf`. */
  ghost predicate Declares(optstring: string, pre: string, c: char, suf: string) {
    optstring == pre + [c] + suf && c != ':' && c != '-' && c != NUL && c !in pre && NUL !in pre
  }

  /** A required argument is the rest of the group or, if there is none, the next argument whatever it is. */
  lemma ArgumentTaken(optstring: string, pre: string, c: char, suf: string, v: string, rest: seq<string>,
                      permute: bool)
    requires Declares(optstring, pre, c, suf) && ":" <= suf && !("::" <= suf)
    ensures Scan([['-', c], v] + rest, 0, optstring, permute) ==
            Found(Opt(c, Some(v)), Scan(rest, 0, optstring, permute))
    ensures v != "" ==>
              Scan([['-', c] + v] + rest, 0, optstring, permute) ==
              Found(Opt(c, Some(v)), Scan(rest, 0, optstring, permute))
    ensures Scan([['-', c]], 0, optstring, permute) == Parse([], Fault(Missing(c)))
  {
    Colons(pre, c, suf);
    assert ([['-', c], v] + rest)[2..] == rest;
    assert ([['-', c] + v] + rest)[1..] == rest && (['-', c] + v)[2..] == v;
    assert ['-', c][2..] == "";
  }

  /** An optional argument is the rest of the group, never the next argument. */
  lemma OptionalTaken(optstring: string, pre: string, c: char, suf: string, v: string, rest: seq<string>,
                      permute: bool)
    requires Declares(optstring, pre, c, suf) && "::" <= suf
    ensures Scan([['-', c]] + rest, 0, optstring, permute) ==
            Found(Opt(c, None), Scan(rest, 0, optstring, permute))
    ensures v != "" ==>
              Scan([['-', c] + v] + rest, 0, optstring, permute) ==
              Found(Opt(c, Some(v)), Scan(rest, 0, optstring, permute))
  {
    Colons(pre, c, suf);
    assert ([['-', c]] + rest)[1..] == rest;
    assert ([['-', c] + v] + rest)[1..] == rest && (['-', c] + v)[2..] == v;
    assert ['-', c][2..] == "";
  }

  /** A group that starts with a flag is scanned like the flag and the others in a group of their own. */
  lemma {:induction false} GroupSplits(optstring: string, c: char, more: string, rest: seq<string>, permute: bool,
                                       sub: nat)
    requires TypeOf(optstring, c) == NoArg && c != '-' && 1 <= sub <= |more| && more[0] != '-'
    ensures Scan([['-', c] + more] + rest, sub, optstring, permute) ==
            Scan([['-'] + more] + rest, sub - 1, optstring, permute)
    decreases |more| - sub
  {
    var a, b := [['-', c] + more] + rest, [['-'] + more] + rest;
    assert a[1..] == rest == b[1..] && (|a| > 1 ==> a[2..] == b[2..]);
    if sub < |more| {
      assert a[0][sub + 1] == b[0][sub] && a[0][sub + 2..] == b[0][sub + 1..];
      if TypeOf(optstring, a[0][sub + 1]) == NoArg && sub + 1 < |more| {
        GroupSplits(optstring, c, more, rest, permute, sub + 1);
      }
    }
  }

  /** A flag takes nothing, alone or in front of others in its group. */
  lemma FlagTaken(optstring: string, pre: string, c: char, suf: string, more: string, rest: seq<string>,
                  permute: bool)
    requires Declares(optstring, pre, c, suf) && !(":" <= suf)
    ensures Scan([['-', c]] + rest, 0, optstring, permute) ==
            Found(Opt(c, None), Scan(rest, 0, optstring, permute))
    ensures more != "" && more[0] != '-' ==>
              Scan([['-', c] + more] + rest, 0, optstring, permute) ==
              Found(Opt(c, None), Scan([['-'] + more] + rest, 0, optstring, permute))
  {
    Colons(pre, c, suf);
    assert ([['-', c]] + rest)[1..] == rest;
    if more != "" && more[0] != '-' {
      assert (['-', c] + more)[2..] == more;
      GroupSplits(optstring, c, more, rest, permute, 1);
    }
  }

  /** Arguments without a hyphen, a lone hyphen and long options are skipped or stop the scan, and "--" ends it. */
  lemma PlainScanned(a: string, rest: seq<string>, optstring: string)
    requires |a| <= 1 || a[0] != '-' || (|a| > 2 && a[1] == '-')
    ensures Scan([a] + rest, 0, optstring, false) == Parse([], Done([a] + rest))
    ensures Scan([a] + rest, 0, optstring, true).events == Scan(rest, 0, optstring, true).events
    ensures Scan(["--"] + rest, 0, optstring, true) == Parse([], Done(rest))
  {
    assert ([a] + rest)[1..] == rest && (["--"] + rest)[1..] == rest;
  }

  /** One option with a required argument, and both on the command line. */
  ghost predicate OneArgument(optstring: string, args: seq<string>) {
    && |optstring| == 2 && optstring[1] == ':' && optstring[0] !in [':', '-', NUL]
    && |args| == 2 && args[0] == ['-', optstring[0]]
  }

  lemma OneArgumentScan(optstring: string, args: seq<string>, permute: bool)
    requires OneArgument(optstring, args)
    ensures Scan(args, 0, optstring, permute) == Parse([Opt(optstring[0], Some(args[1]))], Done([]))
  {
    assert optstring == "" + [optstring[0]] + ":" && !("::" <= ":");
    assert args == [['-', optstring[0]], args[1]] + [];
    ArgumentTaken(optstring, "", optstring[0], ":", args[1], [], permute);
  }

  // ------------------------------------------------------ what is left at the end

  /** The last option of the group needs the next argument. */
  ghost predicate TakesNext(a: string, sub: nat, optstring: string)
    decreases |a| - sub
  {
    sub + 1 < |a| &&
    match TypeOf(optstring, a[sub + 1])
    case NoArg => TakesNext(a, sub + 1, optstring)
    case Required => sub + 2 == |a|
    case _ => false
  }

  /** The arguments that are neither options nor taken by one; behind "--" that is all of them. */
  ghost function Plain(args: seq<string>, sub: nat, optstring: string): (r: seq<string>)
    decreases |args|
  {
    if args == [] then []
    else if IsDashDash(args[0]) then args[1..]
    else if !IsShort(args[0]) then [args[0]] + Plain(args[1..], sub, optstring)
    else Plain(if |args| > 1 && TakesNext(args[0], sub, optstring) then args[2..] else args[1..], 0, optstring)
  }

  /** A scan without a fault leaves exactly these, in their original order. */
  lemma {:induction false} ScanLeavesPlain(args: seq<string>, sub: nat, optstring: string)
    requires Ready(args, sub, true)
    ensures var p := Scan(args, sub, optstring, true); p.end.Done? ==> p.end.rest == Plain(args, sub, optstring)
    decreases |args|, if args == [] then 0 else if sub <= |args[0]| then |args[0]| - sub else 0
  {
    if args == [] || IsDashDash(args[0]) {
    } else if !IsShort(args[0]) {
      ScanLeavesPlain(args[1..], sub, optstring);
    } else {
      var a := args[0];
      var c, tail := OptionAt(a, sub), TailAt(a, sub);
      match TypeOf(optstring, c) {
        case Unknown =>
        case NoArg =>
          if tail != "" {
            ScanLeavesPlain(args, sub + 1, optstring);
            assert TakesNext(a, sub, optstring) == TakesNext(a, sub + 1, optstring);
          } else {
            assert !TakesNext(a, sub + 1, optstring);
            ScanLeavesPlain(args[1..], 0, optstring);
          }
        case Required =>
          if tail == "" && |args| > 1 {
            ScanLeavesPlain(args[2..], 0, optstring);
          } else {
            ScanLeavesPlain(args[1..], 0, optstring);
          }
        case Optional => ScanLeavesPlain(args[1..], 0, optstring);
      }
    }
  }
}
