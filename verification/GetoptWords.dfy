/** What each kind of word means to HX_getopt6, with the numbers of include/libHX/option.h written out. */
module GetoptWords {
  import opened MapTypes
  import opened CString
  import opened GetoptSpec
  import opened GetoptLaws
  import opened Getopt

  /** Options without an argument are those of the types NONE, VAL, SVAL, XSNTMARK and XHELP; the flag
      of an optional argument is 64. */
  lemma Types(e: Entry)
    ensures TakesVoid(e) <==> e.typ % 32 in {0, 1, 2, 29, 30}
    ensures IsOptional(e) <==> e.typ / 64 % 2 == 1
  {
  }

  /** A word that is no option: "-", the empty word, or one that does not start with a dash. */
  predicate Operand(w: CStr) {
    w == "-" || w == "" || w[0] != '-'
  }

  predicate IsFirst(table: seq<Entry>, a: char, i: int) {
    0 <= i < |table| && table[i].sh == a && forall j :: 0 <= j < i ==> table[j].sh != a
  }

  predicate Nobody(table: seq<Entry>, a: char) {
    forall i :: 0 <= i < |table| ==> table[i].sh != a
  }

  lemma {:induction false} ShortFound(table: seq<Entry>, a: char, i: int)
    requires IsFirst(table, a, i)
    ensures LookupShort(table, a) == Some(table[i])
  {
    if i > 0 {
      assert forall j :: 0 <= j < i - 1 ==> table[1..][j] == table[j + 1];
      ShortFound(table[1..], a, i - 1);
    }
  }

  lemma {:induction false} ShortMissing(table: seq<Entry>, a: char)
    requires Nobody(table, a)
    ensures LookupShort(table, a) == None
  {
    if |table| > 0 {
      assert forall j :: 0 <= j < |table| - 1 ==> table[1..][j] == table[j + 1];
      ShortMissing(table[1..], a);
    }
  }

  /** -a, with the first entry that has the letter, or --name, with the entry of that name. */
  ghost predicate Calls(table: seq<Entry>, w: CStr, e: Entry) {
    if |w| == 2 then w[0] == '-' && w[1] != '-' && exists i :: IsFirst(table, w[1], i) && table[i] == e
    else |w| > 2 && w[..2] == "--" && '=' !in w && Lookup(table, w[2..]) == Hit(e)
  }

  ghost predicate CallsNobody(table: seq<Entry>, w: CStr) {
    if |w| == 2 then w[0] == '-' && w[1] != '-' && Nobody(table, w[1])
    else |w| > 2 && w[..2] == "--" && '=' !in w && Lookup(table, w[2..]) == Missing
  }

  /** What the grammar says of such a word. */
  lemma CallsWord(table: seq<Entry>, order: bool, w: CStr, value: Option<CStr>, e: Entry)
    requires Calls(table, w, e)
    ensures Word(table, order, w, value) == if TakesVoid(e) then Piece([e], [None], [], Go1) else WithArg(e, value)
  {
    if |w| == 2 {
      var i :| IsFirst(table, w[1], i) && table[i] == e;
      ShortFound(table, w[1], i);
      assert w == "-" + [w[1]] + "";
      FirstLetter(table, order, w[1], "", value);
    } else {
      NameAndValue(w[2..], "");
      assert w == "--" + w[2..];
    }
  }

  lemma CallsNobodyWord(table: seq<Entry>, order: bool, w: CStr, value: Option<CStr>)
    requires CallsNobody(table, w)
    ensures Word(table, order, w, value) == Piece([], [], [], Fail(ERR_UNKN))
  {
    if |w| == 2 {
      ShortMissing(table, w[1]);
      assert w == "-" + [w[1]] + "";
      FirstLetter(table, order, w[1], "", value);
    } else {
      NameAndValue(w[2..], "");
      assert w == "--" + w[2..];
    }
  }

  /** Behind a complete prefix, a word that goes on by one. */
  lemma WordGoes(table: seq<Entry>, order: bool, pre: seq<CStr>, w: CStr, rest: seq<CStr>)
    requires Complete(table, order, pre)
    ensures var p, o := Word(table, order, w, if |rest| > 0 then Some(rest[0]) else None), Parse(table, order, pre);
      var r := Parse(table, order, pre + ([w] + rest));
      (p.next == Go1 ==> r == Then(o, Then(Out(p.desc, p.oarg, p.uarg, 0), Parse(table, order, rest))))
      && (p.next == Go2 ==> r == Then(o, Then(Out(p.desc, p.oarg, p.uarg, 0), Parse(table, order, Drop(rest, 1)))))
      && (p.next.Fail? ==> r == Then(o, Out(p.desc, p.oarg, p.uarg, p.next.err)))
      && (p.next.End? ==> r == Then(o, Out(p.desc, p.oarg, p.uarg + Drop([w] + rest, p.next.words), 0)))
  {
    hide Word, Complete;
    var words := [w] + rest;
    Context(table, order, pre, words);
    assert words[1..] == rest && Drop(words, 2) == Drop(rest, 1);
    assert Second(words) == if |rest| > 0 then Some(rest[0]) else None;
  }

  /** Where operands and options may be mixed, an operand is taken and parsing goes on; where they may
      not, the first operand ends the options.  "-" never does. */
  lemma OperandMeans(table: seq<Entry>, order: bool, pre: seq<CStr>, w: CStr, rest: seq<CStr>)
    requires Complete(table, order, pre) && Operand(w)
    ensures Parse(table, order, pre + ([w] + rest)) == Then(Parse(table, order, pre),
      if order && w != "-" then Out([], [], [w] + rest, 0)
      else Then(Out([], [], [w], 0), Parse(table, order, rest)))
  {
    hide Complete, Parse, Word;
    OperandWord(table, order, w, if |rest| > 0 then Some(rest[0]) else None);
    WordGoes(table, order, pre, w, rest);
    assert Drop([w] + rest, 0) == [w] + rest && [] + ([w] + rest) == [w] + rest;
  }

  lemma OperandWord(table: seq<Entry>, order: bool, w: CStr, value: Option<CStr>)
    requires Operand(w)
    ensures Word(table, order, w, value) ==
      if order && w != "-" then Piece([], [], [], End(0)) else Piece([], [], [w], Go1)
  {
  }

  /** An option without an argument. */
  lemma VoidMeans(table: seq<Entry>, order: bool, pre: seq<CStr>, w: CStr, e: Entry, rest: seq<CStr>)
    requires Complete(table, order, pre) && Calls(table, w, e) && e.typ % 32 in {0, 1, 2, 29, 30}
    ensures Parse(table, order, pre + ([w] + rest)) ==
      Then(Parse(table, order, pre), Then(Out([e], [None], [], 0), Parse(table, order, rest)))
  {
    hide Complete, Parse, Calls, Word;
    Types(e);
    WordGoes(table, order, pre, w, rest);
    CallsWord(table, order, w, if |rest| > 0 then Some(rest[0]) else None, e);
  }

  /** An option with an argument takes the next word, whatever it is; without one it is an error (3). */
  lemma ArgumentMeans(table: seq<Entry>, order: bool, pre: seq<CStr>, w: CStr, e: Entry, v: CStr, rest: seq<CStr>)
    requires Complete(table, order, pre) && Calls(table, w, e)
    requires e.typ % 32 !in {0, 1, 2, 29, 30} && e.typ / 64 % 2 == 0
    ensures Parse(table, order, pre + ([w] + ([v] + rest))) ==
      Then(Parse(table, order, pre), Then(Out([e], [Some(v)], [], 0), Parse(table, order, rest)))
    ensures Parse(table, order, pre + [w]) == Then(Parse(table, order, pre), Out([], [], [], 3))
  {
    hide Complete, Parse, Calls, Word;
    Types(e);
    WordGoes(table, order, pre, w, [v] + rest);
    CallsWord(table, order, w, Some(v), e);
    assert Drop([v] + rest, 1) == rest;
    WordGoes(table, order, pre, w, []);
    CallsWord(table, order, w, None, e);
    assert [w] + [] == [w];
  }

  /** An option with an optional argument takes the next word unless that looks like an option. */
  lemma OptionalMeans(table: seq<Entry>, order: bool, pre: seq<CStr>, w: CStr, e: Entry, v: CStr, rest: seq<CStr>)
    requires Complete(table, order, pre) && Calls(table, w, e)
    requires e.typ % 32 !in {0, 1, 2, 29, 30} && e.typ / 64 % 2 == 1
    ensures Parse(table, order, pre + ([w] + ([v] + rest))) == Then(Parse(table, order, pre),
      if Operand(v) then Then(Out([e], [Some(v)], [], 0), Parse(table, order, rest))
      else Then(Out([e], [None], [], 0), Parse(table, order, [v] + rest)))
    ensures Parse(table, order, pre + [w]) == Then(Parse(table, order, pre), Out([e], [None], [], 0))
  {
    hide Complete, Parse, Calls, Word;
    Types(e);
    WordGoes(table, order, pre, w, [v] + rest);
    CallsWord(table, order, w, Some(v), e);
    assert Drop([v] + rest, 1) == rest;
    WordGoes(table, order, pre, w, []);
    CallsWord(table, order, w, None, e);
    assert [w] + [] == [w] && Parse(table, order, []) == NONE by { ParseNone(table, order); }
  }

  lemma ParseNone(table: seq<Entry>, order: bool)
    ensures Parse(table, order, []) == Out([], [], [], 0)
  {
  }

  /** A letter or a name that nobody has is an error (1), and nothing after it is looked at. */
  lemma UnknownMeans(table: seq<Entry>, order: bool, pre: seq<CStr>, w: CStr, rest: seq<CStr>)
    requires Complete(table, order, pre) && CallsNobody(table, w)
    ensures Parse(table, order, pre + ([w] + rest)) == Then(Parse(table, order, pre), Out([], [], [], 1))
  {
    hide Complete, Parse, CallsNobody, Word;
    WordGoes(table, order, pre, w, rest);
    CallsNobodyWord(table, order, w, if |rest| > 0 then Some(rest[0]) else None);
  }

  /** The letters behind one that takes an argument are the argument. */
  lemma AttachedMeans(table: seq<Entry>, order: bool, pre: seq<CStr>, w: CStr, e: Entry, value: CStr, rest: seq<CStr>)
    requires Complete(table, order, pre) && |w| == 2 && Calls(table, w, e) && value != ""
    requires e.typ % 32 !in {0, 1, 2, 29, 30}
    ensures Parse(table, order, pre + ([w + value] + rest)) ==
      Then(Parse(table, order, pre), Then(Out([e], [Some(value)], [], 0), Parse(table, order, rest)))
  {
    hide Complete, Parse, Word;
    Types(e);
    WordGoes(table, order, pre, w + value, rest);
    var i :| IsFirst(table, w[1], i) && table[i] == e;
    ShortFound(table, w[1], i);
    assert w == "-" + [w[1]];
    FirstLetter(table, order, w[1], value, if |rest| > 0 then Some(rest[0]) else None);
  }

  /** --name=value: the value of an option that takes one, or the errors 2 for one that does not, 1 for
      an unknown name and 4 for an ambiguous one. */
  lemma EqualsMeans(table: seq<Entry>, order: bool, pre: seq<CStr>, name: CStr, value: CStr, rest: seq<CStr>)
    requires Complete(table, order, pre) && name != "" && '=' !in name
    ensures Parse(table, order, pre + (["--" + name + "=" + value] + rest)) == Then(Parse(table, order, pre),
      match Lookup(table, name)
      case Missing => Out([], [], [], 1)
      case Ambiguous => Out([], [], [], 4)
      case Hit(e) =>
        if e.typ % 32 in {0, 1, 2, 29, 30} then Out([], [], [], 2)
        else Then(Out([e], [Some(value)], [], 0), Parse(table, order, rest)))
  {
    hide Complete, Parse, Lookup;
    var w: CStr := "--" + name + "=" + value;
    NameAndValue(name, value);
    assert Word(table, order, w, if |rest| > 0 then Some(rest[0]) else None) == Long(table, name, value);
    hide Word;
    WordGoes(table, order, pre, w, rest);
    if Lookup(table, name).Hit? {
      Types(Lookup(table, name).e);
    }
  }

  /** An abbreviation of more than one name is an error (4). */
  lemma AmbiguousMeans(table: seq<Entry>, order: bool, pre: seq<CStr>, name: CStr, rest: seq<CStr>)
    requires Complete(table, order, pre) && name != "" && '=' !in name && Lookup(table, name) == Ambiguous
    ensures Parse(table, order, pre + (["--" + name] + rest)) == Then(Parse(table, order, pre), Out([], [], [], 4))
  {
    hide Complete, Parse, Lookup;
    var w: CStr := "--" + name;
    NameAndValue(name, "");
    assert Word(table, order, w, if |rest| > 0 then Some(rest[0]) else None).next == Fail(4);
    assert Word(table, order, w, if |rest| > 0 then Some(rest[0]) else None) == Piece([], [], [], Fail(4));
    hide Word;
    WordGoes(table, order, pre, w, rest);
  }

  lemma FlagBits(flags: bv32, haveResult: bool)
    ensures BadFlags(flags, haveResult) <==> flags & 0xA0 == 0xA0 || (!haveResult && flags & 0xE00 != 0)
    ensures flags & RQ_ORDER == flags & 0x20 && flags & ANY_ORDER == flags & 0x80
  {
  }

  /** What becomes of an operand, from the flags and the environment: with HXOPT_RQ_ORDER (0x20), or under
      POSIXLY_CORRECT without HXOPT_ANY_ORDER (0x80), it ends the options; otherwise they go on. */
  method Ordered(table: seq<Entry>, prog: CStr, pre: seq<CStr>, w: CStr, rest: seq<CStr>, haveResult: bool, flags: bv32,
                 posix: bool) returns (ret: int, par: Vars)
    requires w != "-" && Operand(w) && Complete(table, Strict(flags, posix), pre)
    ensures flags & 0xA0 == 0xA0 || (!haveResult && flags & 0xE00 != 0) ==> ret == -22 && par.uarg == []
    ensures !(flags & 0xA0 == 0xA0 || (!haveResult && flags & 0xE00 != 0)) ==>
      Out(par.desc, par.oarg, par.uarg, ret) == Then(Parse(table, Strict(flags, posix), pre),
        if Strict(flags, posix) then Out([], [], [w] + rest, 0)
        else Then(Out([], [], [w], 0), Parse(table, false, rest)))
  {
    hide Parse, Complete;
    FlagBits(flags, haveResult);
    OperandMeans(table, Strict(flags, posix), pre, w, rest);
    var words := pre + ([w] + rest);
    assert ([prog] + words)[1..] == words;
    var arg0;
    ret, arg0, par := Getopt6(table, [prog] + words, haveResult, flags, posix);
  }

  predicate Strict(flags: bv32, posix: bool) {
    flags & 0x20 != 0 || (flags & 0x80 == 0 && posix)
  }
}
