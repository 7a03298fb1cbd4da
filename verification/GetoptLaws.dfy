/** Laws of the option grammar: where operands come from, which spellings mean the same. */
module GetoptLaws {
  import opened MapTypes
  import opened CString
  import opened GetoptSpec

  predicate Subsequence<T(==)>(a: seq<T>, b: seq<T>) {
    |a| == 0 || (|b| > 0 && ((a[0] == b[0] && Subsequence(a[1..], b[1..])) || Subsequence(a, b[1..])))
  }

  lemma {:induction false} SubsequenceSelf<T>(a: seq<T>)
    ensures Subsequence(a, a)
  {
    if |a| > 0 {
      SubsequenceSelf(a[1..]);
    }
  }

  /** Operands are words of the vector in their order, and every option has its argument slot. */
  lemma {:induction false} OperandsInOrder(table: seq<Entry>, order: bool, words: seq<CStr>)
    ensures var o := Parse(table, order, words); Subsequence(o.uarg, words) && |o.desc| == |o.oarg|
    decreases |words|
  {
    if |words| > 0 {
      var o, p := Parse(table, order, words), Word(table, order, words[0], Second(words));
      WordShape(table, order, words[0], Second(words));
      hide Word;
      match p.next
      case Go1 =>
        var o' := Parse(table, order, words[1..]);
        OperandsInOrder(table, order, words[1..]);
        assert o.uarg == p.uarg + o'.uarg;
        assert if p.uarg == [] then o.uarg == o'.uarg else o.uarg[0] == words[0] && o.uarg[1..] == o'.uarg;
      case Go2 =>
        var o' := Parse(table, order, Drop(words, 2));
        OperandsInOrder(table, order, Drop(words, 2));
        assert o.uarg == [] + o'.uarg == o'.uarg;
        if |words| > 1 {
          assert words[1..][1..] == Drop(words, 2);
        }
      case Fail(err) =>
      case End(n) =>
        assert o.uarg == Drop(words, n);
        SubsequenceSelf(Drop(words, n));
    }
  }

  lemma {:induction false} ClusterShape(table: seq<Entry>, letters: CStr, value: Option<CStr>)
    ensures var p := Cluster(table, letters, value); p.uarg == [] && |p.desc| == |p.oarg| && !p.next.End?
    ensures var p := Cluster(table, letters, None); p.next.Go1? ==> p == Cluster(table, letters, value)
    decreases |letters|
  {
    if |letters| > 0 {
      ClusterShape(table, letters[1..], value);
    }
  }

  lemma WordShape(table: seq<Entry>, order: bool, w: CStr, value: Option<CStr>)
    ensures var p := Word(table, order, w, value);
      |p.desc| == |p.oarg| && (p.uarg == [] || (p.uarg == [w] && p.next.Go1?)) && (p.next.End? ==> p.next.words <= 1)
  {
    if IsShort(w) {
      ClusterShape(table, w[1..], value);
    }
  }

  /** A vector that is used up exactly: its last word wants no argument, and options are still on. */
  predicate Complete(table: seq<Entry>, order: bool, pre: seq<CStr>)
    decreases |pre|
  {
    |pre| == 0
    || match Word(table, order, pre[0], Second(pre)).next
       case Go1 => Complete(table, order, pre[1..])
       case Go2 => |pre| > 1 && Complete(table, order, pre[2..])
       case Fail(_) => false
       case End(_) => false
  }

  /** `o` followed by `o'`. */
  function Then(o: Out, o': Out): Out {
    Out(o.desc + o'.desc, o.oarg + o'.oarg, o.uarg + o'.uarg, o'.err)
  }

  /** A word that goes on by one without a next word does not look at the next word. */
  lemma NoPeek(table: seq<Entry>, order: bool, w: CStr, value: Option<CStr>)
    requires Word(table, order, w, None).next.Go1?
    ensures Word(table, order, w, value) == Word(table, order, w, None)
  {
    if IsShort(w) {
      ClusterShape(table, w[1..], value);
    }
  }

  /** What comes before a point where parsing is complete does not matter to what comes after. */
  lemma {:induction false} Context(table: seq<Entry>, order: bool, pre: seq<CStr>, words: seq<CStr>)
    requires Complete(table, order, pre)
    ensures Parse(table, order, pre + words) == Then(Parse(table, order, pre), Parse(table, order, words))
    decreases |pre|
  {
    var all := pre + words;
    if |pre| == 0 {
      assert all == words;
    } else {
      var p := Word(table, order, pre[0], Second(pre));
      if |pre| == 1 {
        NoPeek(table, order, pre[0], Second(all));
      }
      hide Word;
      assert Word(table, order, all[0], Second(all)) == p;
      var n := if p.next.Go1? then 1 else 2;
      Context(table, order, pre[n..], words);
      assert all[n..] == pre[n..] + words;
      JoinThen(p, Parse(table, order, pre[n..]), Parse(table, order, words));
    }
  }

  lemma JoinThen(p: Piece, x: Out, y: Out)
    ensures Join(p, Then(x, y)) == Then(Join(p, x), y)
  {
    assert p.desc + (x.desc + y.desc) == p.desc + x.desc + y.desc;
    assert p.oarg + (x.oarg + y.oarg) == p.oarg + x.oarg + y.oarg;
    assert p.uarg + (x.uarg + y.uarg) == p.uarg + x.uarg + y.uarg;
  }

  lemma JoinCons(e: Entry, p: Piece, o: Out)
    ensures Join(Cons(e, p), o) == Join(Piece([e], [None], [], Go1), Join(p, o))
  {
    assert [e] + (p.desc + o.desc) == [e] + p.desc + o.desc;
    assert [None] + (p.oarg + o.oarg) == [None] + p.oarg + o.oarg;
  }

  lemma Cancel<T>(a: seq<T>, b: seq<T>, c: seq<T>)
    ensures a + b == a + c <==> b == c
  {
    if a + b == a + c {
      assert b == (a + b)[|a|..] == (a + c)[|a|..] == c;
    }
  }

  /** Two continuations mean the same behind a complete prefix exactly when they do alone. */
  lemma SameBehind(table: seq<Entry>, order: bool, pre: seq<CStr>, x: seq<CStr>, y: seq<CStr>)
    requires Complete(table, order, pre)
    ensures Parse(table, order, pre + x) == Parse(table, order, pre + y) <==>
      Parse(table, order, x) == Parse(table, order, y)
  {
    Context(table, order, pre, x);
    Context(table, order, pre, y);
    var o, a, b := Parse(table, order, pre), Parse(table, order, x), Parse(table, order, y);
    Cancel(o.desc, a.desc, b.desc);
    Cancel(o.oarg, a.oarg, b.oarg);
    Cancel(o.uarg, a.uarg, b.uarg);
  }

  /** After "--" every word is an operand as it stands. */
  lemma Terminated(table: seq<Entry>, order: bool, pre: seq<CStr>, tail: seq<CStr>)
    requires Complete(table, order, pre)
    ensures var o, o' := Parse(table, order, pre), Parse(table, order, pre + ["--"] + tail);
      o' == Out(o.desc, o.oarg, o.uarg + tail, ERR_SUCCESS)
  {
    var words := ["--"] + tail;
    Context(table, order, pre, words);
    assert pre + ["--"] + tail == pre + words;
    assert Drop(words, 1) == tail;
    assert Parse(table, order, words) == Out([], [], tail, ERR_SUCCESS);
  }

  /** A word that is its first option followed by what another word means. */
  lemma SplitWord(table: seq<Entry>, order: bool, w: CStr, w1: CStr, w2: CStr, e: Entry, post: seq<CStr>)
    requires Word(table, order, w, Second([w] + post)) == Cons(e, Word(table, order, w2, Second([w2] + post)))
    requires !Word(table, order, w2, Second([w2] + post)).next.End?
    requires Word(table, order, w1, Some(w2)) == Piece([e], [None], [], Go1)
    ensures Parse(table, order, [w] + post) == Parse(table, order, [w1, w2] + post)
  {
    var one, two, rest := [w] + post, [w1, w2] + post, [w2] + post;
    assert two[1..] == rest && one[1..] == rest[1..] == post && Drop(one, 2) == Drop(rest, 2);
    var p := Word(table, order, w2, Second(rest));
    hide Word;
    assert Parse(table, order, two) == Join(Piece([e], [None], [], Go1), Parse(table, order, rest));
    JoinCons(e, p, match p.next
                   case Go1 => Parse(table, order, post)
                   case Go2 => Parse(table, order, Drop(one, 2))
                   case Fail(err) => Out([], [], [], err)
                   case End(_) => NONE);
  }

  lemma FirstLetter(table: seq<Entry>, order: bool, a: char, r: CStr, value: Option<CStr>)
    requires a != '-' && a != '\0'
    ensures var w: CStr := "-" + [a] + r;
      Word(table, order, w, value) ==
      match LookupShort(table, a)
      case None => Piece([], [], [], Fail(ERR_UNKN))
      case Some(e) =>
        if TakesVoid(e) then Cons(e, Cluster(table, r, value))
        else if |r| > 0 then Piece([e], [Some(r)], [], Go1)
        else WithArg(e, value)
  {
    var w: CStr, letters: CStr := "-" + [a] + r, [a] + r;
    assert w[1..] == letters && letters[1..] == r && IsShort(w);
  }

  /** -ab... means -a -b... exactly when `a` takes no argument or is unknown. */
  lemma Bundled(table: seq<Entry>, order: bool, pre: seq<CStr>, a: char, r: CStr, post: seq<CStr>)
    requires Complete(table, order, pre) && a != '-' && a != '\0' && |r| > 0 && r[0] != '-'
    ensures Parse(table, order, pre + (["-" + [a] + r] + post)) ==
      Parse(table, order, pre + (["-" + [a], "-" + r] + post))
      <==> match LookupShort(table, a) case None => true case Some(e) => TakesVoid(e)
  {
    hide Complete;
    var w: CStr, w1: CStr, w2: CStr := "-" + [a] + r, "-" + [a], "-" + r;
    var one, two := [w] + post, [w1, w2] + post;
    SameBehind(table, order, pre, one, two);
    FirstLetter(table, order, a, r, Second(one));
    FirstLetter(table, order, a, "", Some(w2));
    assert w1 + "" == w1 && w2[1..] == r && IsShort(w2) && w2 != r;
    assert Second(one) == Second([w2] + post) && Second(two) == Some(w2);
    assert Word(table, order, w2, Second(one)) == Cluster(table, r, Second(one));
    ClusterShape(table, r, Second(one));
    hide Word, Cluster, Complete;
    match LookupShort(table, a)
    case None =>
    case Some(e) =>
      if TakesVoid(e) {
        SplitWord(table, order, w, w1, w2, e, post);
      } else {
        assert Parse(table, order, one).oarg[0] == Some(r);
      }
  }

  /** The option would take the argument from the next word. */
  predicate TakesNext(e: Entry, value: CStr) {
    !TakesVoid(e) && (!IsOptional(e) || Offers(Some(value)))
  }

  /** -Avalue means -A value exactly when the option would take the value from the next word. */
  lemma AttachedShort(table: seq<Entry>, order: bool, pre: seq<CStr>, a: char, value: CStr, post: seq<CStr>, e: Entry)
    requires Complete(table, order, pre) && a != '-' && a != '\0' && |value| > 0
    requires LookupShort(table, a) == Some(e) && !TakesVoid(e)
    ensures Parse(table, order, pre + (["-" + [a] + value] + post)) ==
      Parse(table, order, pre + (["-" + [a], value] + post))
      <==> TakesNext(e, value)
  {
    var w: CStr, w1: CStr := "-" + [a] + value, "-" + [a];
    var one, two := [w] + post, [w1, value] + post;
    SameBehind(table, order, pre, one, two);
    assert w[1..] == [a] + value && ([a] + value)[1..] == value && w1[1..] == [a];
    assert IsShort(w) && IsShort(w1) && Second(two) == Some(value);
    assert one[1..] == post == Drop(two, 2);
    assert Word(table, order, w, Second(one)) == Piece([e], [Some(value)], [], Go1);
    assert Word(table, order, w1, Some(value)) == WithArg(e, Some(value));
    assert Parse(table, order, one).oarg[0] == Some(value);
  }

  lemma NameAndValue(name: CStr, value: CStr)
    requires |name| > 0 && '=' !in name
    ensures var w: CStr := "--" + name + "=" + value;
      Equals(w, 2) == Some(2 + |name|) && w[2..2 + |name|] == name && w[2 + |name| + 1..] == value && IsLong(w)
    ensures var w: CStr := "--" + name; Equals(w, 2) == None && w[2..] == name && IsLong(w)
  {
    var w: CStr, w1: CStr := "--" + name + "=" + value, "--" + name;
    var n := 2 + |name|;
    assert w1[2..] == name;
    assert forall i :: 2 <= i < n ==> w[i] == name[i - 2] && w1[i] == name[i - 2];
    EqualsAt(w, 2, n);
    EqualsAt(w1, 2, n);
  }

  /** The scan stops at the first '=' or at the end. */
  lemma {:induction false} EqualsAt(w: CStr, i: nat, n: nat)
    requires i <= n <= |w| && (n < |w| ==> w[n] == '=') && forall j :: i <= j < n ==> w[j] != '='
    ensures Equals(w, i) == if n < |w| then Some(n) else None
    decreases n - i
  {
    if i < n {
      EqualsAt(w, i + 1, n);
    }
  }

  /** --name=value means --name value exactly when the name is not found or the option would take
      the value from the next word. */
  lemma AttachedLong(table: seq<Entry>, order: bool, pre: seq<CStr>, name: CStr, value: CStr, post: seq<CStr>)
    requires Complete(table, order, pre) && |name| > 0 && '=' !in name
    ensures Parse(table, order, pre + (["--" + name + "=" + value] + post)) ==
      Parse(table, order, pre + (["--" + name, value] + post))
      <==> match Lookup(table, name) case Hit(e) => TakesNext(e, value) case Missing => true case Ambiguous => true
  {
    hide Complete, Lookup, Cluster;
    var w: CStr, w1: CStr := "--" + name + "=" + value, "--" + name;
    var one, two := [w] + post, [w1, value] + post;
    SameBehind(table, order, pre, one, two);
    NameAndValue(name, value);
    assert Second(two) == Some(value) && one[1..] == post == Drop(two, 2);
    assert Word(table, order, w, Second(one)) == Long(table, name, value);
    assert Word(table, order, w1, Some(value)) == TwoLong(table, name, Some(value));
    hide Word, Equals;
    match Lookup(table, name)
    case Missing =>
    case Ambiguous =>
    case Hit(e) =>
      if TakesVoid(e) {
        assert |Parse(table, order, one).desc| == 0;
      } else {
        assert Parse(table, order, one).oarg[0] == Some(value);
      }
  }

  predicate Exact(table: seq<Entry>, key: CStr, i: nat) {
    i < |table| && table[i].ln == Some(key)
  }

  /** How many of the first `n` entries the key abbreviates without being their name. */
  function Shadows(table: seq<Entry>, key: CStr, n: nat): nat
    requires n <= |table|
  {
    if n == 0 then 0
    else Shadows(table, key, n - 1) + if Abbreviates(key, table[n - 1]) && table[n - 1].ln != Some(key) then 1 else 0
  }

  lemma {:induction false} ShadowsFirst(table: seq<Entry>, key: CStr, n: nat)
    requires 0 < n <= |table|
    ensures Shadows(table, key, n) ==
      Shadows(table[1..], key, n - 1) + if Abbreviates(key, table[0]) && table[0].ln != Some(key) then 1 else 0
  {
    if n > 1 {
      ShadowsFirst(table, key, n - 1);
      assert table[1..][n - 2] == table[n - 1];
    }
  }

  /** An exact long name is found exactly when fewer than two entries before it have it as a
      proper prefix; otherwise the lookup calls it ambiguous. */
  lemma {:induction false} ExactName(table: seq<Entry>, key: CStr, cand: Found, i: nat)
    requires Exact(table, key, i) && forall j :: 0 <= j < i ==> !Exact(table, key, j)
    requires cand != Ambiguous
    ensures var seen := Shadows(table, key, i) + if cand.Hit? then 1 else 0;
      LookupFrom(table, key, cand) == if seen <= 1 then Hit(table[i]) else Ambiguous
    decreases i
  {
    if i > 0 {
      var t := table[1..];
      assert !Exact(table, key, 0);
      assert forall j :: 0 <= j < i - 1 ==> (Exact(t, key, j) <==> Exact(table, key, j + 1));
      ShadowsFirst(table, key, i);
      if !Abbreviates(key, table[0]) {
        ExactName(t, key, cand, i - 1);
      } else if cand == Missing {
        ExactName(t, key, Hit(table[0]), i - 1);
      }
    }
  }

  /** A name that is nobody's exact name is found exactly when one entry has it as a prefix. */
  lemma {:induction false} Abbreviation(table: seq<Entry>, key: CStr, cand: Found)
    requires forall j :: 0 <= j < |table| ==> !Exact(table, key, j)
    requires cand != Ambiguous
    ensures var seen := Shadows(table, key, |table|) + if cand.Hit? then 1 else 0;
      match LookupFrom(table, key, cand)
      case Missing => seen == 0
      case Hit(e) => seen == 1 && (cand == Hit(e) || (e in table && Abbreviates(key, e)))
      case Ambiguous => seen >= 2
    decreases |table|
  {
    if |table| > 0 {
      var t := table[1..];
      assert !Exact(table, key, 0);
      assert forall j :: 0 <= j < |t| ==> (Exact(t, key, j) <==> Exact(table, key, j + 1));
      ShadowsFirst(table, key, |table|);
      if !Abbreviates(key, table[0]) {
        Abbreviation(t, key, cand);
      } else if cand == Missing {
        Abbreviation(t, key, Hit(table[0]));
      }
    }
  }
}
