/**
  The option parser: a cursor over `argv`, which it rearranges as it goes.
*/
module Getopts {
  import opened Common
  import opened GetoptModel

  class Getopt {
    const argv: array<string>
    var permute: bool
    var optind: nat
    var subopt: nat
    var optopt: Option<char>
    var optarg: Option<string>

    /** The arguments from the cursor on. */
    ghost function Rest(): (s: seq<string>)
      reads this, argv
      requires optind <= argv.Length
    {
      argv[optind..]
    }

    /** The cursor is inside `argv`, and what the next call looks at inside an argument. */
    ghost predicate Valid()
      reads this, argv
    {
      optind <= argv.Length && Ready(Rest(), subopt, permute)
    }

    /** `ogs_getopt_init`. */
    constructor (argv: array<string>)
      requires argv.Length > 0
      ensures this.argv == argv && permute && optind == 1 && subopt == 0 && optarg == None && Valid()
    {
      this.argv := argv;
      permute, optind, subopt, optopt, optarg := true, 1, 0, None, None;
    }

    /** `ogs_getopt_argtype`. */
    static method TypeIn(optstring: string, c: char) returns (t: ArgType)
      ensures t == TypeOf(optstring, c)
    {
      if c == ':' {
        return Unknown;
      }
      var i := 0;
      while i < |optstring| && optstring[i] != NUL && c != optstring[i]
        invariant i <= |optstring| && TypeOf(optstring, c) == TypeOf(optstring[i..], c)
      {
        assert optstring[i..][1..] == optstring[i + 1..];
        i := i + 1;
      }
      if i == |optstring| || optstring[i] == NUL {
        return Unknown;
      }
      t := NoArg;
      if i + 1 < |optstring| && optstring[i + 1] == ':' {
        t := if i + 2 < |optstring| && optstring[i + 2] == ':' then Optional else Required;
      }
    }

    /** `ogs_getopt_permute`: the argument at `index` goes behind those up to the cursor. */
    method Permute(index: nat)
      requires index < optind <= argv.Length
      modifies argv
      ensures argv[..] == old(argv[..index] + argv[index + 1..optind] + [argv[index]] + argv[optind..])
    {
      var nonoption := argv[index];
      ghost var was := argv[..];
      var i := index;
      while i < optind - 1
        invariant index <= i <= optind - 1
        invariant forall k :: index <= k < i ==> argv[k] == was[k + 1]
        invariant forall k :: 0 <= k < argv.Length && !(index <= k < i) ==> argv[k] == was[k]
      {
        argv[i] := argv[i + 1];
        i := i + 1;
      }
      argv[optind - 1] := nonoption;
      ghost var now := was[..index] + was[index + 1..optind] + [was[index]] + was[optind..];
      assert |now| == argv.Length;
      forall k | 0 <= k < argv.Length ensures argv[k] == now[k] {
        if index <= k < optind - 1 {
          assert now[k] == was[index + 1..optind][k - index] == was[k + 1];
        } else if k >= optind {
          assert now[k] == was[optind..][k - optind];
        }
      }
    }

    /** From position `from` of `was`, the call made the step `o`. */
    ghost predicate Made(o: Outcome, was: seq<string>, from: nat)
      reads this, argv
    {
      && from <= |was| && optind == from + |o.used| && argv[..] == was[..from] + (o.used + o.rest) && subopt == o.sub
      && Told(o)
    }

    /** The caller finds the option looked at and its argument. */
    ghost predicate Told(o: Outcome)
      reads this
    {
      match o.r
      case Opt(c, arg) => optopt == Some(c) && optarg == arg
      case End => optopt == None && optarg == None
      case Invalid(c) => optopt == Some(c) && optarg == None
      case Missing(c) => optopt == Some(c) && optarg == None
    }

    static lemma SkipSeq(was: seq<string>, from: nat, now: seq<string>, used: seq<string>, rest: seq<string>)
      requires from < |was| && now == was[..from + 1] + (used + rest)
      ensures var mid := from + 1 + |used|;
              now[..from] + now[from + 1..mid] + [now[from]] + now[mid..] == was[..from] + (used + ([was[from]] + rest))
    {
      assert now[from + 1..] == used + rest;
      assert now[from + 1..][..|used|] == used;
      assert now[from + 1..][|used|..] == rest;
    }

    /** `ogs_getopt`: one step of the model. */
    method Next(optstring: string) returns (r: Result)
      requires Valid()
      modifies this, argv
      ensures permute == old(permute)
      ensures var o := Step(old(Rest()), old(subopt), optstring, permute);
              r == o.r && Made(o, old(argv[..]), old(optind))
      decreases argv.Length - optind, 1
    {
      optopt, optarg := None, None;
      if optind == argv.Length {
        return End;
      }
      var option := argv[optind];
      assert Rest()[0] == option;
      if IsDashDash(option) {
        assert argv[..] == argv[..optind] + (Rest()[..1] + Rest()[1..]);
        optind := optind + 1;
        return End;
      }
      if !IsShort(option) {
        if permute {
          r := Skip(optstring);
        } else {
          r := End;
        }
        return;
      }
      TakeRearranges(Rest(), subopt, optstring);
      assert argv[..] == argv[..optind] + Rest();
      r := Take(option, optstring);
    }

    /** The branch for an argument that is not an option. */
    method Skip(optstring: string) returns (r: Result)
      requires Valid() && optind < argv.Length && !IsDashDash(argv[optind]) && !IsShort(argv[optind]) && permute
      modifies this, argv
      ensures permute
      ensures var o := Step(old(Rest()), old(subopt), optstring, permute);
              r == o.r && Made(o, old(argv[..]), old(optind))
      decreases argv.Length - optind, 0
    {
      ghost var was := argv[..];
      ghost var p := Step(Rest()[1..], subopt, optstring, permute);
      assert argv[optind + 1..] == Rest()[1..];
      var index := optind;
      optind := optind + 1;
      r := Next(optstring);
      PutBack(index, was, p);
    }

    /** After the call on the arguments behind the skipped one. */
    method PutBack(index: nat, ghost was: seq<string>, ghost p: Outcome)
      requires index < |was| == argv.Length && Made(p, was, index + 1) && optind <= argv.Length
      modifies this, argv
      ensures permute == old(permute) && Made(p.(rest := [was[index]] + p.rest), was, index)
    {
      SkipSeq(was, index, argv[..], p.used, p.rest);
      Permute(index);
      optind := optind - 1;
    }

    /** The branch for a group of options. */
    method Take(option: string, optstring: string) returns (r: Result)
      requires optind < argv.Length && option == argv[optind] && InGroup(Rest(), subopt)
      requires optopt == None && optarg == None
      modifies this
      ensures permute == old(permute)
      ensures var o := TakeOption(old(Rest()), old(subopt), optstring);
              r == o.r && optind == old(optind) + |o.used| && subopt == o.sub && Told(o)
    {
      ghost var rest := Rest();
      var c, tail := OptionAt(option, subopt), TailAt(option, subopt);
      optopt := Some(c);
      var t := TypeIn(optstring, c);
      match t {
        case Unknown =>
          optind := optind + 1;
          r := Invalid(c);
        case NoArg =>
          if tail != "" {
            subopt := subopt + 1;
          } else {
            subopt, optind := 0, optind + 1;
          }
          r := Opt(c, None);
        case Required =>
          subopt, optind := 0, optind + 1;
          if tail != "" {
            optarg := Some(tail);
          } else if optind < argv.Length {
            assert argv[optind] == rest[1];
            optarg := Some(argv[optind]);
            optind := optind + 1;
          } else {
            return Missing(c);
          }
          r := Opt(c, optarg);
        case Optional =>
          subopt, optind := 0, optind + 1;
          optarg := if tail != "" then Some(tail) else None;
          r := Opt(c, optarg);
      }
    }

    /** One call, as the loop sees it. */
    method Call(optstring: string) returns (r: Result)
      requires Valid()
      modifies this, argv
      ensures optind <= argv.Length && permute == old(permute) && multiset(argv[..]) == multiset(old(argv[..]))
      ensures r.Opt? ==> Valid() && 0 <= Left(Rest(), subopt) < Left(old(Rest()), old(subopt))
      ensures old(Scan(Rest(), subopt, optstring, permute)) ==
              match r
              case Opt(_, _) => Found(r, Scan(Rest(), subopt, optstring, permute))
              case End => Parse([], Done(Rest()))
              case _ => Parse([], Fault(r))
    {
      ghost var rest, sub, was, from := Rest(), subopt, argv[..], optind;
      StepScans(rest, sub, optstring, permute);
      StepShrinks(rest, sub, optstring, permute);
      StepRearranges(rest, sub, optstring, permute);
      r := Next(optstring);
      ghost var o := Step(rest, sub, optstring, permute);
      assert was == was[..from] + rest;
      assert argv[..][optind..] == o.rest;
      assert Rest() == o.rest && subopt == o.sub;
    }

    /** The caller's loop. */
    method ParseLoop(optstring: string) returns (found: seq<Result>, end: Result)
      requires Valid()
      modifies this, argv
      ensures permute == old(permute)
      ensures multiset(argv[..]) == multiset(old(argv[..])) && optind <= argv.Length
      ensures var p := Scan(old(Rest()), old(subopt), optstring, permute);
              found == p.events && if end == End then p.end == Done(Rest()) else p.end == Fault(end)
    {
      found := [];
      ghost var goal := Scan(Rest(), subopt, optstring, permute);
      end := Call(optstring);
      while end.Opt?
        invariant multiset(argv[..]) == multiset(old(argv[..])) && optind <= argv.Length && permute == old(permute)
        invariant end.Opt? ==> Valid() && 0 <= Left(Rest(), subopt)
        invariant match end
                  case Opt(_, _) => goal.events == found + [end] + Scan(Rest(), subopt, optstring, permute).events
                                    && goal.end == Scan(Rest(), subopt, optstring, permute).end
                  case End => goal == Parse(found, Done(Rest()))
                  case _ => goal == Parse(found, Fault(end))
        decreases if end.Opt? then Left(Rest(), subopt) else -1
      {
        found := found + [end];
        end := Call(optstring);
      }
    }

    /** The caller's loop: options until the end or a fault. */
    method ParseAll(optstring: string) returns (found: seq<Result>, end: Result)
      requires Valid()
      modifies this, argv
      ensures permute == old(permute) && multiset(argv[..]) == multiset(old(argv[..])) && optind <= argv.Length
      ensures var p := Scan(old(Rest()), old(subopt), optstring, permute);
              found == p.events && if end == End then p.end == Done(Rest()) else p.end == Fault(end)
      ensures end == End && permute ==> Rest() == Plain(old(Rest()), old(subopt), optstring)
      ensures old(OneArgument(optstring, Rest()) && subopt == 0) ==>
                found == [Opt(optstring[0], Some(old(Rest())[1]))] && end == End && Rest() == []
    {
      if OneArgument(optstring, Rest()) && subopt == 0 {
        OneArgumentScan(optstring, Rest(), permute);
      }
      if permute {
        ScanLeavesPlain(Rest(), subopt, optstring);
      }
      found, end := ParseLoop(optstring);
    }
  }
}
