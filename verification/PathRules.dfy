/** Path joining rule by rule: what one more segment does. Together with associativity the rules say what every path
    is normalized to. */
module PathRules {
  import opened PosixPath
  import opened Sequences

  lemma {:induction false} JoinOneMore(segs: seq<string>, last: string)
    ensures Join(segs + [last]) == if segs == [] then last else Join(segs) + "/" + last
  {
    if segs == [] {
      assert segs + [last] == [last];
    } else {
      assert (segs + [last])[1..] == segs[1..] + [last];
      JoinOneMore(segs[1..], last);
      if segs[1..] != [] {
        Regroup(segs[0] + "/", Join(segs[1..]), "/" + last);
        assert Join(segs[1..]) + "/" + last == Join(segs[1..]) + ("/" + last);
        assert Join(segs) + "/" + last == Join(segs) + ("/" + last);
      }
    }
  }

  /** The result of one more segment, on the stack of the segments before. */
  lemma OneSegment(d: string, seg: string)
    requires '/' !in seg
    ensures JoinAndNormalize(d, seg) == Join(Push(Stack("", d), seg))
    ensures JoinAndNormalize("", d) == Join(Stack("", d))
  {
    SplitWhole(seg);
    JoinedStack(d, seg);
    JoinedStack("", d);
    EmptyPushes([]);
    hide Split;
    assert [seg][1..] == [];
  }

  /** `.` and an empty segment vanish wherever they stand. */
  lemma DotVanishes(d: string, c: string)
    ensures JoinAndNormalize(d, "./" + c) == JoinAndNormalize(d, c)
    ensures JoinAndNormalize(d, c + "/.") == JoinAndNormalize(d, c)
    ensures JoinAndNormalize(d, c + "/") == JoinAndNormalize(d, c)
  {
    DotPushes(PushAll(Split(d), []));
    DotPushes(PushAll(Split(c), PushAll(Split(d), [])));
    EmptyPushes(PushAll(Split(c), PushAll(Split(d), [])));
    SplitConcat(".", c);
    SplitConcat(c, ".");
    SplitConcat(c, "");
    assert c + "/" + "" == c + "/" && "." + "/" + c == "./" + c && c + "/" + "." == c + "/.";
    JoinedStack(d, c);
    JoinedStack(d, "./" + c);
    JoinedStack(d, c + "/.");
    JoinedStack(d, c + "/");
    hide Split, PushAll, Join;
    PushAllConcat(Split("."), Split(c), PushAll(Split(d), []));
    PushAllConcat(Split(c), Split("."), PushAll(Split(d), []));
    PushAllConcat(Split(c), Split(""), PushAll(Split(d), []));
  }

  lemma DotPushes(stack: seq<string>)
    ensures PushAll(Split("."), stack) == stack
  {
    SplitWhole(".");
    assert ["."][1..] == [];
  }

  /** A name is appended to the normalized path. */
  lemma NameIsAppended(d: string, n: string)
    requires '/' !in n && n != "" && n != "." && n != ".."
    ensures var p := JoinAndNormalize("", d);
      JoinAndNormalize(d, n) == if p == "" then n else p + "/" + n
  {
    var stack := Stack("", d);
    OneSegment(d, n);
    JoinOneMore(stack, n);
    StackIsNothing(d);
  }

  /** Only the root normalizes to nothing. */
  lemma StackIsNothing(d: string)
    ensures Join(Stack("", d)) == "" <==> Stack("", d) == []
  {
    var segs := Split(Joined("", d));
    NormalForm(segs);
    hide Split, PushAll;
    var stack := Stack("", d);
    if stack != [] {
      assert stack[0] == (Dots(Climb(segs)) + Survivors(segs))[0];
      assert stack[0] != "";
      assert Join(stack)[0] == stack[0][0];
    }
  }

  /** A climb takes back a name right before it. */
  lemma ClimbTakesName(d: string, n: string, c: string)
    requires '/' !in n && n != "" && n != "." && n != ".."
    ensures JoinAndNormalize(d, n + "/../" + c) == JoinAndNormalize(d, c)
    ensures JoinAndNormalize(d, n + "/..") == JoinAndNormalize("", d)
  {
    var stack := PushAll(Split(d), []);
    TwoSegments(n, "..", c);
    NamePushes(n, stack);
    SplitConcat(n, "..");
    SplitWhole(n);
    SplitWhole("..");
    JoinedStack(d, c);
    JoinedStack(d, n + "/../" + c);
    JoinedStack(d, n + "/..");
    JoinedStack("", d);
    EmptyPushes([]);
    hide Split, PushAll, Join;
    assert n + "/" + ".." == n + "/..";
    PushAllConcat([n] + [".."], Split(c), stack);
  }

  lemma TwoSegments(n: string, m: string, c: string)
    requires '/' !in n && '/' !in m
    ensures Split(n + "/" + m + "/" + c) == [n] + [m] + Split(c)
    ensures n + "/../" + c == n + "/" + ".." + "/" + c
  {
    SplitConcat(n + "/" + m, c);
    SplitConcat(n, m);
    SplitWhole(n);
    SplitWhole(m);
  }

  lemma NamePushes(n: string, stack: seq<string>)
    requires n != "" && n != "." && n != ".."
    ensures PushAll([n] + [".."], stack) == stack
  {
    assert ([n] + [".."])[1..] == [".."] && [".."][1..] == [];
    assert Push(stack, n) == stack + [n];
    assert (stack + [n])[..|stack + [n]| - 1] == stack;
    assert Push(stack + [n], "..") == stack;
    assert PushAll([".."], stack + [n]) == PushAll([], stack);
  }

  /** At the root, or where only climbs stand before it, a climb is kept. */
  lemma ClimbIsKept(d: string, q: string)
    ensures JoinAndNormalize("", d) == "" ==> JoinAndNormalize(d, "..") == ".."
    ensures JoinAndNormalize("", d) == ".." ==> JoinAndNormalize(d, "..") == "../.."
    ensures JoinAndNormalize("", d) == q + "/.." ==> JoinAndNormalize(d, "..") == q + "/../.."
  {
    hide Split, Join, Stack, Push;
    var stack, p := Stack("", d), JoinAndNormalize("", d);
    OneSegment(d, "..");
    StackIsNothing(d);
    StackReadsBack(d);
    ClimbPushes(stack);
    JoinOneMore(stack, "..");
    if p == ".." {
      SplitWhole("..");
    } else if p == q + "/.." {
      SplitConcat(q, "..");
      SplitWhole("..");
      assert q + "/" + ".." == p;
      assert stack == Split(q) + [".."];
      assert p + "/" + ".." == q + "/../..";
    }
  }

  lemma ClimbPushes(stack: seq<string>)
    ensures stack == [] || stack[|stack| - 1] == ".." ==> Push(stack, "..") == stack + [".."]
  {
  }

  lemma StackReadsBack(d: string)
    ensures Stack("", d) != [] ==> Split(JoinAndNormalize("", d)) == Stack("", d)
  {
    var segs := Split(Joined("", d));
    SplitIsSlashless(Joined("", d));
    NormalIsSlashless(segs);
    if Stack("", d) != [] { SplitJoin(Stack("", d)); }
  }

  /** In particular. */
  lemma SmallPaths()
    ensures JoinAndNormalize("a", "b") == "a/b" && JoinAndNormalize("", "..") == ".."
  {
    NameIsAppended("", "a");
    NothingIsRoot();
    NameIsAppended("a", "b");
    ClimbIsKept("", "");
    JoinedStack("", "a");
    assert JoinAndNormalize("", "a") == "a";
  }

  lemma NothingIsRoot()
    ensures JoinAndNormalize("", "") == ""
  {
    assert [""][1..] == [];
  }
}
