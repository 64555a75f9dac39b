/** Creature-type protection as the ability-text patch writes it: each
    protected term is replaced by the literal text `__PROTECTED_i__`, the
    replacement pairs run over the whole string, placeholders included, and
    the placeholder texts are replaced back. A pair whose old text occurs
    inside a placeholder text rewrites the placeholder, which then cannot
    be restored. The rest of the model uses opaque placeholders (module
    Protection), which no pair can match. */
module LiteralPlaceholders {
  import opened Seqs
  import opened Tokens
  import opened Pairs
  import opened Protection

  /** Python's `str(n)` for a natural number. */
  function Decimal(n: nat): (r: string)
    ensures |r| >= 1 && forall c :: c in r ==> '0' <= c <= '9'
  {
    if n < 10 then [('0' as int + n) as char]
    else Decimal(n / 10) + [('0' as int + n % 10) as char]
  }

  /** The literal placeholder of the `i`-th protected term. */
  function PlaceholderText(i: nat): (r: string)
    ensures |r| > 0
  {
    "__PROTECTED_" + Decimal(i) + "__"
  }

  /** The hiding loop as written: terms `k..` in order, each one that still
      occurs is replaced by its placeholder text and recorded in `hidden`
      (the insertion order of the placeholder map). */
  function HideLiterally(work: string, terms: seq<string>, k: nat, hidden: seq<nat>): (r: (string, seq<nat>))
    requires k <= |terms| && Protectable(terms)
    requires forall i :: 0 <= i < |hidden| ==> hidden[i] < k
    ensures forall i :: 0 <= i < |r.1| ==> r.1[i] < |terms|
    decreases |terms| - k
  {
    if k == |terms| then (work, hidden)
    else
      assert terms[k] in terms;
      if Occurs(work, terms[k]) then
        HideLiterally(ReplaceAll(work, terms[k], PlaceholderText(k)), terms, k + 1, hidden + [k])
      else HideLiterally(work, terms, k + 1, hidden)
  }

  /** The restoring loop as written: each recorded placeholder text, in
      order, is replaced by its term. */
  function RestoreLiterally(work: string, terms: seq<string>, hidden: seq<nat>): string
    requires forall i :: 0 <= i < |hidden| ==> hidden[i] < |terms|
    decreases |hidden|
  {
    if hidden == [] then work
    else RestoreLiterally(ReplaceAll(work, PlaceholderText(hidden[0]), terms[hidden[0]]), terms, hidden[1..])
  }

  /** The English rewrite of one text as written. */
  function SubstitutedAsWritten(text: string, terms: seq<string>, pairs: seq<Pair>): string
    requires Protectable(terms) && UsableBefores(pairs)
  {
    var none: seq<nat> := [];
    var (work, hidden) := HideLiterally(text, terms, 0, none);
    RestoreLiterally(ReplaceEach(work, pairs), terms, hidden)
  }

  /** Hiding "Elf" in "Elf" leaves only its placeholder text. */
  lemma HideElf()
    ensures HideLiterally("Elf", ["Elf"], 0, []) == (PlaceholderText(0), [0])
  {
    var terms := ["Elf"];
    var p := PlaceholderText(0);
    assert MatchesAt("Elf", "Elf", 0);
    assert ReplaceAll("", "Elf", p) == "";
    assert p + "" == p;
    assert ReplaceAll("Elf", terms[0], p) == p;
    var none: seq<nat> := [];
    assert none + [0] == [0];
    assert HideLiterally(p, terms, 1, [0]) == (p, [0]);
  }

  /** A one-character pattern absent from `a` leaves `a` alone. */
  lemma {:induction false} ReplaceCharSkips(a: string, b: string, c: char, rep: string)
    requires c !in a
    ensures ReplaceAll(a + b, [c], rep) == a + ReplaceAll(b, [c], rep)
    decreases |a|
  {
    if a == [] {
      assert a + b == b;
    } else {
      assert a[0] in a;
      assert (a + b)[..1] == [a[0]] && (a + b)[1..] == a[1..] + b;
      ReplaceCharSkips(a[1..], b, c, rep);
      assert [a[0]] + (a[1..] + ReplaceAll(b, [c], rep)) == a + ReplaceAll(b, [c], rep);
    }
  }

  /** A one-character pattern that occurs once is replaced there only. */
  lemma ReplaceSingleChar(a: string, b: string, c: char, rep: string)
    requires c !in a && c !in b
    ensures ReplaceAll(a + [c] + b, [c], rep) == a + rep + b
  {
    ReplaceCharSkips(a, [c] + b, c, rep);
    assert ([c] + b)[..1] == [c] && ([c] + b)[1..] == b;
    ReplaceCharSkips(b, [], c, rep);
    assert b + [] == b && a + [c] + b == a + ([c] + b);
  }

  /** Replacing "D" by "X" in the placeholder text of term 0. */
  lemma ReplaceDInPlaceholder()
    ensures ReplaceAll("__PROTECTED_0__", "D", "X") == "__PROTECTEX_0__"
  {
    var head, tail := "__PROTECTE", "_0__";
    assert "__PROTECTED_0__" == head + ['D'] + tail;
    assert "__PROTECTEX_0__" == head + "X" + tail;
    ReplaceSingleChar(head, tail, 'D', "X");
  }

  /** The pair ("D", "X") rewrites the placeholder text of term 0. */
  lemma PairHitsPlaceholder()
    ensures PlaceholderText(0) == "__PROTECTED_0__"
    ensures ReplaceEach("__PROTECTED_0__", [Pair("D", "X")]) == "__PROTECTEX_0__"
  {
    ReplaceDInPlaceholder();
    var pairs := [Pair("D", "X")];
    assert pairs[1..] == [];
    assert ReplaceEach("__PROTECTEX_0__", []) == "__PROTECTEX_0__";
  }

  /** The rewritten placeholder is no longer found by the restore step. */
  lemma RestoreMissesRewrittenPlaceholder()
    ensures RestoreLiterally("__PROTECTEX_0__", ["Elf"], [0]) == "__PROTECTEX_0__"
  {
    var rewritten := "__PROTECTEX_0__";
    var p := PlaceholderText(0);
    assert p == "__PROTECTED_0__";
    assert !Occurs(rewritten, p) by {
      forall i | 0 <= i <= |rewritten| ensures !MatchesAt(rewritten, p, i) {
        if i == 0 {
          assert rewritten[10] != p[10];
        }
      }
    }
    ReplaceAllNoMatch(rewritten, p, "Elf");
  }

  /** With the creature type "Elf" protected and a pair replacing "D" by
      "X", the text "Elf" comes out as "__PROTECTEX_0__": the pair rewrites
      the placeholder, and the restore step no longer finds it. With opaque
      placeholders the text is left as it is. */
  lemma PairRewritesPlaceholder()
    ensures SubstitutedAsWritten("Elf", ["Elf"], [Pair("D", "X")]) == "__PROTECTEX_0__"
    ensures Substituted("Elf", ["Elf"], [Pair("D", "X")]) == "Elf"
  {
    HideElf();
    PairHitsPlaceholder();
    RestoreMissesRewrittenPlaceholder();
    var terms := ["Elf"];
    var w := Lift("Elf");
    assert ReplaceAll(w, Lift("Elf"), [Ph(0)]) == [Ph(0)] + ReplaceAll([], Lift("Elf"), [Ph(0)]);
    assert Protect("Elf", terms) == [Ph(0)];
    assert !Occurs(Protect("Elf", terms), Lift("D")) by {
      assert !MatchesAt(Protect("Elf", terms), Lift("D"), 0);
    }
    SubstitutedWithoutMatches("Elf", terms, [Pair("D", "X")]);
  }
}
