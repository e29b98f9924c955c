/** Cache keys, the string each is digested from, and the projection an IR lookup uses. */
module CacheKeys {
  datatype CacheKey = CacheKey(
    contentHash: string,
    parserFingerprint: string,
    scope: string,
    vocabularyFingerprint: string,
    rulesetFingerprint: string)
  {
    function DigestInput(): string {
      Join(Fields(this))
    }
  }

  datatype IrKey = IrKey(contentHash: string, parserFingerprint: string, scope: string, vocabularyFingerprint: string)
  {
    function DigestInput(): string {
      Join(IrFields(this))
    }
  }

  /** The fields in declaration order. */
  function Fields(k: CacheKey): seq<string> {
    [k.contentHash, k.parserFingerprint, k.scope, k.vocabularyFingerprint, k.rulesetFingerprint]
  }

  function IrFields(k: IrKey): seq<string> {
    [k.contentHash, k.parserFingerprint, k.scope, k.vocabularyFingerprint]
  }

  function IrKeyOf(key: CacheKey): IrKey {
    IrKey(key.contentHash, key.parserFingerprint, key.scope, key.vocabularyFingerprint)
  }

  const NUL: char := '\0'

  /** The fields with a NUL between each two. */
  function Join(fields: seq<string>): string {
    if fields == [] then "" else if |fields| == 1 then fields[0] else fields[0] + [NUL] + Join(fields[1..])
  }

  /** The texts that are digested, written out. */
  lemma DigestTexts(k: CacheKey)
    ensures k.DigestInput() ==
      k.contentHash + [NUL] + k.parserFingerprint + [NUL] + k.scope + [NUL]
      + k.vocabularyFingerprint + [NUL] + k.rulesetFingerprint
    ensures IrKeyOf(k).DigestInput() ==
      k.contentHash + [NUL] + k.parserFingerprint + [NUL] + k.scope + [NUL] + k.vocabularyFingerprint
  {
    var a, b, c := k.contentHash, k.parserFingerprint, k.scope;
    var d, e := k.vocabularyFingerprint, k.rulesetFingerprint;
    hide Join;
    assert Fields(k) == [a] + ([b] + ([c] + ([d] + ([e] + []))));
    assert IrFields(IrKeyOf(k)) == [a] + ([b] + ([c] + ([d] + [])));
    JoinFirst(e, []);
    JoinFirst(d, [e] + []);
    JoinFirst(c, [d] + ([e] + []));
    JoinFirst(b, [c] + ([d] + ([e] + [])));
    JoinFirst(a, [b] + ([c] + ([d] + ([e] + []))));
    JoinFirst(d, []);
    JoinFirst(c, [d] + []);
    JoinFirst(b, [c] + ([d] + []));
    JoinFirst(a, [b] + ([c] + ([d] + [])));
    var n := [NUL];
    assert a + (n + (b + (n + (c + (n + (d + (n + (e + "")))))))) == a + n + b + n + c + n + d + n + e;
    assert a + (n + (b + (n + (c + (n + (d + "")))))) == a + n + b + n + c + n + d;
  }

  /** The first field ends at the first NUL, when the field itself has none. */
  lemma FirstFieldsAgree(a: string, b: string, x: string, y: string)
    requires NUL !in a && NUL !in b && a + [NUL] + x == b + [NUL] + y
    ensures a == b && x == y
  {
    var l, r := a + [NUL] + x, b + [NUL] + y;
    assert l[|a|] == NUL && r[|b|] == NUL;
    assert (forall i :: 0 <= i < |a| ==> l[i] == a[i]) && (forall i :: 0 <= i < |b| ==> r[i] == b[i]);
    assert |a| == |b|;
    assert l[..|a|] == a && r[..|b|] == b;
    assert l[|a| + 1..] == x && r[|b| + 1..] == y;
  }

  /** The last field starts after the last NUL, when the field itself has none. */
  lemma LastFieldsAgree(x: string, y: string, a: string, b: string)
    requires NUL !in a && NUL !in b && x + [NUL] + a == y + [NUL] + b
    ensures a == b && x == y
  {
    var l, r := x + [NUL] + a, y + [NUL] + b;
    assert l[|x|] == NUL && r[|y|] == NUL;
    assert forall i :: |x| < i < |l| ==> l[i] == a[i - |x| - 1];
    assert forall i :: |y| < i < |r| ==> r[i] == b[i - |y| - 1];
    assert |x| == |y|;
    assert l[..|x|] == x && r[..|y|] == y;
    assert l[|x| + 1..] == a && r[|y| + 1..] == b;
  }

  lemma {:induction false} JoinSnoc(f: seq<string>, last: string)
    requires f != []
    ensures Join(f + [last]) == Join(f) + [NUL] + last
  {
    assert (f + [last])[1..] == f[1..] + [last];
    if |f| == 1 {
      assert f[1..] + [last] == [last];
    } else {
      JoinSnoc(f[1..], last);
    }
  }

  ghost predicate NulFreeBut(f: seq<string>, but: nat) {
    forall i :: 0 <= i < |f| && i != but ==> NUL !in f[i]
  }

  /** With NULs in one field at most, always the same one, the joined text tells the fields apart. */
  lemma {:induction false} JoinInjective(f: seq<string>, g: seq<string>, but: nat)
    requires |f| == |g| && but < |f| && NulFreeBut(f, but) && NulFreeBut(g, but)
    requires Join(f) == Join(g)
    ensures f == g
    decreases |f|
  {
    var n := |f| - 1;
    if n == 0 {
      assert f == [f[0]] && g == [g[0]];
    } else if but > 0 {
      FirstFieldsAgree(f[0], g[0], Join(f[1..]), Join(g[1..]));
      JoinInjective(f[1..], g[1..], but - 1);
      assert f == [f[0]] + f[1..] && g == [g[0]] + g[1..];
    } else {
      assert f == f[..n] + [f[n]] && g == g[..n] + [g[n]];
      JoinSnoc(f[..n], f[n]);
      JoinSnoc(g[..n], g[n]);
      LastFieldsAgree(Join(f[..n]), Join(g[..n]), f[n], g[n]);
      JoinInjective(f[..n], g[..n], 0);
    }
  }

  /** No NUL outside the scope, as in every key the engine builds; its scope joins two parts with one. */
  ghost predicate NulOnlyInScope(k: CacheKey) {
    && NUL !in k.contentHash && NUL !in k.parserFingerprint
    && NUL !in k.vocabularyFingerprint && NUL !in k.rulesetFingerprint
  }

  /** Whatever their scopes hold, keys without NUL in the other fields are told apart by their digest text. */
  lemma DigestInputInjective(j: CacheKey, k: CacheKey)
    requires NulOnlyInScope(j) && NulOnlyInScope(k)
    ensures j.DigestInput() == k.DigestInput() ==> j == k
    ensures IrKeyOf(j).DigestInput() == IrKeyOf(k).DigestInput() ==> IrKeyOf(j) == IrKeyOf(k)
  {
    var f, g := Fields(j), Fields(k);
    if Join(f) == Join(g) {
      JoinInjective(f, g, 2);
      assert f[0] == g[0] && f[1] == g[1] && f[2] == g[2] && f[3] == g[3] && f[4] == g[4];
    }
    var p, q := IrFields(IrKeyOf(j)), IrFields(IrKeyOf(k));
    if Join(p) == Join(q) {
      JoinInjective(p, q, 2);
      assert p[0] == q[0] && p[1] == q[1] && p[2] == q[2] && p[3] == q[3];
    }
  }

  /** The engine's scope: the tree's id and the file's path in it. */
  function ScopeOf(sourceId: string, rel: string): string {
    sourceId + [NUL] + rel
  }

  /** The id `b` is `a` and the head of the path `r`, up to a NUL in it; the path `q` is what follows that NUL. */
  ghost predicate Bleeds(a: string, r: string, b: string, q: string) {
    exists x: string :: b == a + [NUL] + x && r == x + [NUL] + q
  }

  lemma ScopeSplits(a: string, r: string, b: string, q: string)
    requires ScopeOf(a, r) == ScopeOf(b, q) && |a| < |b|
    ensures Bleeds(a, r, b, q)
  {
    var s, x := ScopeOf(a, r), b[|a| + 1..];
    assert s[|a|] == NUL && s[..|a|] == a && s[..|b|] == b && s[|a| + 1..] == r && s[|b| + 1..] == q && s[|b|] == NUL;
    assert b == a + [NUL] + x;
    assert r == x + [NUL] + q;
  }

  /** Two scopes have one text exactly when they are one, or one's path bleeds into the other's id. */
  lemma ScopesCollideIff(a: string, r: string, b: string, q: string)
    ensures ScopeOf(a, r) == ScopeOf(b, q) <==> (a == b && r == q) || Bleeds(a, r, b, q) || Bleeds(b, q, a, r)
  {
    if ScopeOf(a, r) == ScopeOf(b, q) {
      if |a| < |b| {
        ScopeSplits(a, r, b, q);
      } else if |b| < |a| {
        ScopeSplits(b, q, a, r);
      } else {
        var s := ScopeOf(a, r);
        assert s[..|a|] == a && s[..|a|] == b && s[|a| + 1..] == r && s[|a| + 1..] == q;
      }
    }
  }

  ghost predicate HasScopeTwin(id: string, rel: string) {
    exists b: string, q: string :: (b != id || q != rel) && ScopeOf(b, q) == ScopeOf(id, rel)
  }

  /** A tree's id and a file's path have the scope text of another pair exactly when one of them holds a NUL. */
  lemma ScopeTwinIffNul(id: string, rel: string)
    ensures HasScopeTwin(id, rel) <==> NUL in id || NUL in rel
  {
    if NUL in rel {
      var p :| 0 <= p < |rel| && rel[p] == NUL;
      var b, q := id + [NUL] + rel[..p], rel[p + 1..];
      assert rel == rel[..p] + [NUL] + q;
      assert Bleeds(id, rel, b, q);
      ScopesCollideIff(id, rel, b, q);
    } else if NUL in id {
      var p :| 0 <= p < |id| && id[p] == NUL;
      var b, q := id[..p], id[p + 1..] + [NUL] + rel;
      assert id == b + [NUL] + id[p + 1..];
      assert Bleeds(b, q, id, rel);
      ScopesCollideIff(b, q, id, rel);
    } else {
      forall b: string, q: string | ScopeOf(b, q) == ScopeOf(id, rel) ensures b == id && q == rel {
        ScopesCollideIff(b, q, id, rel);
      }
    }
  }

  // ----- keys that share a digest text -------------------------------------------------------------

  lemma JoinFirst(x: string, f: seq<string>)
    ensures Join([x] + f) == x + if f == [] then "" else [NUL] + Join(f)
  {
    assert ([x] + f)[1..] == f;
  }

  lemma CutAtNul(a: string, b: string, c: string, t: string)
    ensures (a + [NUL] + b) + ([NUL] + (c + t)) == a + ([NUL] + ((b + [NUL] + c) + t))
  {
  }

  /** A NUL inside a field reads like the separator: the field can be cut there and its rest pushed into the
      next. */
  lemma {:induction false} SeparatorIsAmbiguous(
      before: seq<string>, a: string, b: string, c: string, after: seq<string>)
    ensures Join(before + [a + [NUL] + b, c] + after) == Join(before + [a, b + [NUL] + c] + after)
  {
    hide Join;
    var x, y := a + [NUL] + b, b + [NUL] + c;
    if before == [] {
      assert before + [x, c] + after == [x] + ([c] + after) && before + [a, y] + after == [a] + ([y] + after);
      JoinFirst(x, [c] + after);
      JoinFirst(a, [y] + after);
      JoinFirst(c, after);
      JoinFirst(y, after);
      CutAtNul(a, b, c, if after == [] then "" else [NUL] + Join(after));
    } else {
      var l, r := before[1..] + [x, c] + after, before[1..] + [a, y] + after;
      SeparatorIsAmbiguous(before[1..], a, b, c, after);
      assert before + [x, c] + after == [before[0]] + l && before + [a, y] + after == [before[0]] + r;
      JoinFirst(before[0], l);
      JoinFirst(before[0], r);
    }
  }

  function Nuls(s: string): nat {
    if s == [] then 0 else (if s[0] == NUL then 1 else 0) + Nuls(s[1..])
  }

  function NulsIn(f: seq<string>): nat {
    if f == [] then 0 else Nuls(f[0]) + NulsIn(f[1..])
  }

  lemma {:induction false} NulsConcat(a: string, b: string)
    ensures Nuls(a + b) == Nuls(a) + Nuls(b)
  {
    if a == [] {
      assert a + b == b;
    } else {
      assert (a + b)[1..] == a[1..] + b;
      NulsConcat(a[1..], b);
    }
  }

  lemma {:induction false} NulsOfJoin(f: seq<string>)
    requires f != []
    ensures Nuls(Join(f)) == |f| - 1 + NulsIn(f)
  {
    if |f| == 1 {
      assert NulsIn(f[1..]) == 0;
    } else {
      NulsOfJoin(f[1..]);
      NulsConcat(f[0] + [NUL], Join(f[1..]));
      NulsConcat(f[0], [NUL]);
      assert [NUL][1..] == [];
    }
  }

  lemma {:induction false} NoNulMeansZero(s: string)
    ensures Nuls(s) == 0 <==> NUL !in s
  {
    if s == [] {
    } else {
      NoNulMeansZero(s[1..]);
      assert s == [s[0]] + s[1..];
    }
  }

  lemma {:induction false} NulFreeMeansZero(f: seq<string>)
    ensures NulsIn(f) == 0 <==> forall i :: 0 <= i < |f| ==> NUL !in f[i]
  {
    if f == [] {
    } else {
      NulFreeMeansZero(f[1..]);
      NoNulMeansZero(f[0]);
      assert forall i :: 0 < i < |f| ==> f[i] == f[1..][i - 1];
      assert forall i :: 0 <= i < |f| - 1 ==> f[1..][i] == f[i + 1];
    }
  }

  /** Fields without NUL are the only fields, of their number, with their joined text. */
  lemma NulFreeHasNoTwin(f: seq<string>, g: seq<string>)
    requires f != [] && |g| == |f| && (forall i :: 0 <= i < |f| ==> NUL !in f[i]) && Join(g) == Join(f)
    ensures g == f
  {
    NulsOfJoin(f);
    NulsOfJoin(g);
    NulFreeMeansZero(f);
    NulFreeMeansZero(g);
    JoinInjective(f, g, 0);
  }

  /** A NUL in any field, wherever in it, makes other fields with the same joined text. */
  lemma NulHasTwin(f: seq<string>, i: nat) returns (g: seq<string>)
    requires |f| >= 2 && i < |f| && NUL in f[i]
    ensures |g| == |f| && g != f && Join(g) == Join(f)
  {
    var p :| 0 <= p < |f[i]| && f[i][p] == NUL;
    var a, b := f[i][..p], f[i][p + 1..];
    assert f[i] == a + [NUL] + b;
    if i + 1 < |f| {
      var before, after := f[..i], f[i + 2..];
      SeparatorIsAmbiguous(before, a, b, f[i + 1], after);
      assert f == before + [a + [NUL] + b, f[i + 1]] + after;
      g := before + [a, b + [NUL] + f[i + 1]] + after;
      assert |g[i]| < |f[i]|;
    } else {
      var before := f[..i - 1];
      SeparatorIsAmbiguous(before, f[i - 1], a, b, []);
      assert f == before + [f[i - 1], a + [NUL] + b] + [];
      g := before + [f[i - 1] + [NUL] + a, b] + [];
      assert |g[i]| < |f[i]|;
    }
  }

  ghost predicate NulFree(k: CacheKey) {
    NulOnlyInScope(k) && NUL !in k.scope
  }

  ghost predicate HasTwin(k: CacheKey) {
    exists j: CacheKey :: j != k && j.DigestInput() == k.DigestInput()
  }

  ghost predicate HasIrTwin(k: IrKey) {
    exists j: IrKey :: j != k && j.DigestInput() == k.DigestInput()
  }

  /** A key shares its digest text with another key exactly when one of its fields holds a NUL. */
  lemma TwinIffNul(k: CacheKey)
    ensures HasTwin(k) <==> !NulFree(k)
  {
    var f := Fields(k);
    assert f[0] == k.contentHash && f[1] == k.parserFingerprint && f[2] == k.scope
        && f[3] == k.vocabularyFingerprint && f[4] == k.rulesetFingerprint;
    if NulFree(k) {
      forall j: CacheKey | j.DigestInput() == k.DigestInput() ensures j == k {
        NulFreeHasNoTwin(f, Fields(j));
        assert f[0] == Fields(j)[0] && f[1] == Fields(j)[1] && f[2] == Fields(j)[2]
            && f[3] == Fields(j)[3] && f[4] == Fields(j)[4];
      }
    } else {
      var i: nat :| i < 5 && NUL in f[i];
      var g := NulHasTwin(f, i);
      var j := CacheKey(g[0], g[1], g[2], g[3], g[4]);
      assert Fields(j) == g;
      assert j.DigestInput() == k.DigestInput();
    }
  }

  lemma IrTwinIffNul(k: IrKey)
    ensures HasIrTwin(k) <==>
      NUL in k.contentHash || NUL in k.parserFingerprint || NUL in k.scope || NUL in k.vocabularyFingerprint
  {
    var f := IrFields(k);
    assert f[0] == k.contentHash && f[1] == k.parserFingerprint && f[2] == k.scope && f[3] == k.vocabularyFingerprint;
    if forall i :: 0 <= i < 4 ==> NUL !in f[i] {
      forall j: IrKey | j.DigestInput() == k.DigestInput() ensures j == k {
        NulFreeHasNoTwin(f, IrFields(j));
        assert f[0] == IrFields(j)[0] && f[1] == IrFields(j)[1] && f[2] == IrFields(j)[2] && f[3] == IrFields(j)[3];
      }
    } else {
      var i: nat :| i < 4 && NUL in f[i];
      var g := NulHasTwin(f, i);
      var j := IrKey(g[0], g[1], g[2], g[3]);
      assert IrFields(j) == g;
      assert j.DigestInput() == k.DigestInput();
    }
  }

  /** The projection forgets the ruleset fingerprint and nothing else. */
  lemma ProjectionDropsOnlyRuleset(j: CacheKey, k: CacheKey)
    ensures IrKeyOf(j) == IrKeyOf(k) <==> j.(rulesetFingerprint := k.rulesetFingerprint) == k
  {
  }
}
