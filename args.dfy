// Splitting of a command line into arguments (split_args in main.cpp):
// double quotes toggle quoting and are dropped, a space outside quotes ends
// the current argument, and empty arguments are never produced.

module Args {

  /** The state of the scan: inside quotes or not, the argument being
    * built, and the arguments finished so far. */
  datatype Scan = Scan(quote: bool, arg: string, done: seq<string>)

  const Start := Scan(false, "", [])

  /** One character of the scan. */
  function Step(st: Scan, c: char): Scan
  {
    if c == '"' then st.(quote := !st.quote)
    else if c == ' ' && !st.quote then
      (if st.arg != "" then Scan(st.quote, "", st.done + [st.arg]) else st)
    else st.(arg := st.arg + [c])
  }

  /** The scan of `s` from the state `st`. */
  function RunFrom(st: Scan, s: string): Scan
    decreases |s|
  {
    if s == [] then st else RunFrom(Step(st, s[0]), s[1..])
  }

  /** The finished arguments, with the pending one when it is not empty. */
  function Flush(st: Scan): seq<string>
  {
    if st.arg != "" then st.done + [st.arg] else st.done
  }

  /** The arguments split_args returns for `s`. */
  function Tokens(s: string): seq<string>
  {
    Flush(RunFrom(Start, s))
  }

  // ---------------------------------------------------------------------
  // Reference definitions, independent of the scan

  /** Whether the scan of `s`, begun with quoting `q`, ends inside quotes:
    * `q` flipped once per '"'. */
  function Quoted(q: bool, s: string): bool
    decreases |s|
  {
    if s == [] then q else Quoted(if s[0] == '"' then !q else q, s[1..])
  }

  /** The characters of `s` that end up in some argument: all but the
    * quotes and the spaces outside quotes (begun with quoting `q`). */
  function Kept(q: bool, s: string): string
    decreases |s|
  {
    if s == [] then ""
    else if s[0] == '"' then Kept(!q, s[1..])
    else if s[0] == ' ' && !q then Kept(q, s[1..])
    else [s[0]] + Kept(q, s[1..])
  }

  /** The arguments written one after the other. */
  function Concat(ps: seq<string>): string
  {
    if ps == [] then "" else Concat(ps[..|ps| - 1]) + ps[|ps| - 1]
  }

  /** Every argument is non-empty and holds no '"'. */
  predicate Clean(ps: seq<string>)
  {
    forall j :: 0 <= j < |ps| ==> ps[j] != "" && '"' !in ps[j]
  }

  predicate Good(st: Scan)
  {
    Clean(st.done) && '"' !in st.arg
  }

  // ---------------------------------------------------------------------
  // The loop of split_args

  /** split_args: the arguments of `args`, one character at a time. */
  method SplitArgs(args: string) returns (ret: seq<string>)
    ensures ret == Tokens(args)
  {
    var quote := false;
    ret := [];
    var arg := "";
    var i := 0;
    while i < |args|
      invariant 0 <= i <= |args|
      invariant RunFrom(Scan(quote, arg, ret), args[i..]) == RunFrom(Start, args)
    {
      var c := args[i];
      assert args[i..][0] == c && args[i..][1..] == args[i + 1..];
      if c == '"' {
        quote := !quote;
      } else if c == ' ' && !quote {
        if arg != "" {
          ret := ret + [arg];
          arg := "";
        }
      } else {
        arg := arg + [c];
      }
      i := i + 1;
    }
    assert args[i..] == [];
    if arg != "" {
      ret := ret + [arg];
    }
  }

  // ---------------------------------------------------------------------
  // What the arguments are

  lemma ConcatSnoc(ps: seq<string>, t: string)
    ensures Concat(ps + [t]) == Concat(ps) + t
  {
    assert (ps + [t])[..|ps|] == ps;
  }

  lemma CleanSnoc(ps: seq<string>, t: string)
    requires Clean(ps) && t != "" && '"' !in t
    ensures Clean(ps + [t])
  {
  }

  /** One step keeps the scan clean, flips quoting on '"' only, adds to the
    * written-out text exactly the kept character, and only appends. */
  lemma StepKeeps(st: Scan, c: char)
    requires Good(st)
    ensures Good(Step(st, c))
    ensures Step(st, c).quote == (if c == '"' then !st.quote else st.quote)
    ensures Concat(Step(st, c).done) + Step(st, c).arg
         == Concat(st.done) + st.arg + (if c == '"' || (c == ' ' && !st.quote) then "" else [c])
    ensures st.done <= Step(st, c).done
  {
    if c != '"' && c == ' ' && !st.quote && st.arg != "" {
      ConcatSnoc(st.done, st.arg);
      CleanSnoc(st.done, st.arg);
    }
  }

  /** The scan keeps its invariant over any input: it ends inside quotes as
    * Quoted says, and what it has written out is exactly the kept text. */
  lemma {:induction false} RunKeeps(st: Scan, s: string)
    requires Good(st)
    ensures Good(RunFrom(st, s))
    ensures RunFrom(st, s).quote == Quoted(st.quote, s)
    ensures Concat(RunFrom(st, s).done) + RunFrom(st, s).arg
         == Concat(st.done) + st.arg + Kept(st.quote, s)
    ensures st.done <= RunFrom(st, s).done
    decreases |s|
  {
    if s != [] {
      var c, rest := s[0], s[1..];
      var next := Step(st, c);
      StepKeeps(st, c);
      RunKeeps(next, rest);
      assert RunFrom(st, s) == RunFrom(next, rest);
      assert Quoted(st.quote, s) == Quoted(next.quote, rest);
      assert Kept(st.quote, s) == (if c == '"' || (c == ' ' && !st.quote) then "" else [c]) + Kept(next.quote, rest);
    }
  }

  /** No argument is empty or holds a '"', and the arguments written one
    * after the other are the input without its quotes and without the
    * spaces outside quotes. */
  lemma TokensKept(s: string)
    ensures Clean(Tokens(s))
    ensures Concat(Tokens(s)) == Kept(false, s)
  {
    var st := RunFrom(Start, s);
    RunKeeps(Start, s);
    assert Concat(st.done) + st.arg == Kept(false, s) by {
      assert Concat(Start.done) + Start.arg + Kept(false, s) == Kept(false, s);
    }
    if st.arg != "" {
      ConcatSnoc(st.done, st.arg);
      CleanSnoc(st.done, st.arg);
    }
  }

  /** Scanning `a + b` is scanning `a`, then `b`. */
  lemma {:induction false} RunAppend(st: Scan, a: string, b: string)
    ensures RunFrom(st, a + b) == RunFrom(RunFrom(st, a), b)
    decreases |a|
  {
    if a != [] {
      assert (a + b)[0] == a[0] && (a + b)[1..] == a[1..] + b;
      RunAppend(Step(st, a[0]), a[1..], b);
    } else {
      assert a + b == b;
    }
  }

  /** The arguments finished before a scan begins stay in front of all
    * that the scan finishes. */
  lemma {:induction false} RunShift(q: bool, arg: string, before: seq<string>, s: string)
    ensures RunFrom(Scan(q, arg, before), s)
         == var x := RunFrom(Scan(q, arg, []), s); Scan(x.quote, x.arg, before + x.done)
    decreases |s|
  {
    if s != [] {
      var st := Step(Scan(q, arg, []), s[0]);
      var c := s[0];
      if c != '"' && c == ' ' && !q && arg != "" {
        assert Step(Scan(q, arg, before), c) == Scan(q, "", before + [arg]);
        assert st == Scan(q, "", [arg]);
        RunShift(q, "", [arg], s[1..]);
        RunShift(q, "", before + [arg], s[1..]);
        var x := RunFrom(Scan(q, "", []), s[1..]);
        assert before + [arg] + x.done == before + ([arg] + x.done);
      } else {
        assert Step(Scan(q, arg, before), c) == Scan(st.quote, st.arg, before);
        RunShift(st.quote, st.arg, before, s[1..]);
      }
    }
  }

  /** A space outside quotes ends an argument: the arguments of `a`, a space
    * and `b` are those of `a` followed by those of `b`, when `a` leaves
    * quoting off. */
  lemma SpaceSeparates(a: string, b: string)
    requires !Quoted(false, a)
    ensures Tokens(a + " " + b) == Tokens(a) + Tokens(b)
  {
    var st := RunFrom(Start, a);
    RunKeeps(Start, a);
    RunAppend(Start, a + " ", b);
    RunAppend(Start, a, " ");
    assert RunFrom(st, " ") == Step(st, ' ');
    var x := RunFrom(Start, b);
    RunShift(false, "", Flush(st), b);
    assert RunFrom(Start, a + " " + b) == Scan(x.quote, x.arg, Flush(st) + x.done);
  }

  /** Characters that neither toggle quoting nor end the argument are
    * appended to it, spaces included when quoting is on. */
  lemma {:induction false} PlainRun(q: bool, arg: string, done: seq<string>, w: string)
    requires forall j :: 0 <= j < |w| ==> w[j] != '"' && (q || w[j] != ' ')
    ensures RunFrom(Scan(q, arg, done), w) == Scan(q, arg + w, done)
    decreases |w|
  {
    if w != [] {
      assert Step(Scan(q, arg, done), w[0]) == Scan(q, arg + [w[0]], done);
      PlainRun(q, arg + [w[0]], done, w[1..]);
      assert arg + [w[0]] + w[1..] == arg + w;
    }
  }

  /** A non-empty word without quotes or spaces is one argument. */
  lemma Word(w: string)
    requires w != "" && forall j :: 0 <= j < |w| ==> w[j] != '"' && w[j] != ' '
    ensures Tokens(w) == [w]
  {
    PlainRun(false, "", [], w);
    assert "" + w == w;
  }

  /** A space inside quotes is kept: a non-empty quoted text without '"' is
    * one argument, its spaces included and its quotes dropped. */
  lemma QuotedWord(w: string)
    requires w != "" && '"' !in w
    ensures Tokens("\"" + w + "\"") == [w]
  {
    var open := Scan(true, "", []);
    assert RunFrom(Start, "\"") == open;
    RunAppend(Start, "\"", w);
    PlainRun(true, "", [], w);
    assert "" + w == w;
    RunAppend(Start, "\"" + w, "\"");
    assert RunFrom(Scan(true, w, []), "\"") == Scan(false, w, []);
  }
}
