/** HX_getopt6 (src/opt.c): the state machine, proved against the grammar. */
module Getopt {
  import opened MapTypes
  import opened CString
  import opened GetoptSpec

  const EINVAL: int := 22

  const S_NORMAL: bv32 := 0
  const S_SHORT: bv32 := 1
  const S_TWOLONG: bv32 := 2
  const S_LONG: bv32 := 3
  const S_TERMINATED: bv32 := 4

  const I_ASSIGN: bv32 := 0x8
  const I_ADVARG: bv32 := 0x10
  const I_ADVARG2: bv32 := 0x20
  const I_ADVCHAR: bv32 := 0x40
  const I_ERROR: bv32 := 0x4000_0000
  const I_MASK: bv32 := I_ADVARG | I_ADVARG2 | I_ADVCHAR | I_ASSIGN | I_ERROR

  const RQ_ORDER: bv32 := 0x20
  const ANY_ORDER: bv32 := 0x80
  const ITERATES: bv32 := 0x200 | 0x400 | 0x800   // HXOPT_ITER_OPTS, HXOPT_ITER_ARGS, HXOPT_DUP_ARGS

  /** HX_getopt_error: the error code travels in the low bits. */
  function ErrorState(err: int): bv32 {
    I_ERROR | (if err == ERR_UNKN then 1 else if err == ERR_VOID then 2 else if err == ERR_MIS then 3 else 4)
  }

  function ErrorCode(state: bv32): int {
    var code := state & !I_ERROR;
    if code == 1 then ERR_UNKN else if code == 2 then ERR_VOID else if code == 3 then ERR_MIS else ERR_AMBIG
  }

  /** struct HX_getopt_vars with the two deques of options and the one of operands. */
  class Vars {
    const table: seq<Entry>
    var flags: bv32
    var desc: seq<Entry>
    var oarg: seq<Option<CStr>>
    var uarg: seq<CStr>
    var current: Found
    var data: Option<CStr>

    constructor (table: seq<Entry>, flags: bv32)
      ensures this.table == table && this.flags == flags && desc == [] && oarg == [] && uarg == []
    {
      this.table, this.flags := table, flags;
      desc, oarg, uarg, current, data := [], [], [], Missing, None;
    }

    /** do_assign_front, with the assignment itself reduced to the log of options. */
    method Assign()
      requires current.Hit?
      modifies this`desc, this`oarg
      ensures desc == old(desc) + [current.e] && oarg == old(oarg) + [data]
    {
      desc, oarg := desc + [current.e], oarg + [data];
    }
  }

  /** lookup_short */
  method FindShort(table: seq<Entry>, op: char) returns (r: Found)
    ensures match LookupShort(table, op) case None => r == Missing case Some(e) => r == Hit(e)
  {
    var i := 0;
    while i < |table|
      invariant i <= |table| && LookupShort(table[i..], op) == LookupShort(table, op)
    {
      assert table[i..][1..] == table[i + 1..];
      if table[i].sh == op {
        return Hit(table[i]);
      }
      i := i + 1;
    }
    r := Missing;
  }

  /** lookup_long_pfx */
  method FindLong(table: seq<Entry>, key: CStr) returns (r: Found)
    ensures r == Lookup(table, key)
  {
    var cand, i := Missing, 0;
    while i < |table|
      invariant i <= |table| && cand != Ambiguous && LookupFrom(table[i..], key, cand) == Lookup(table, key)
    {
      assert table[i..][1..] == table[i + 1..];
      if Abbreviates(key, table[i]) {
        if |table[i].ln.value| == |key| {
          return Hit(table[i]);
        }
        if cand != Missing {
          return Ambiguous;
        }
        cand := Hit(table[i]);
      }
      i := i + 1;
    }
    r := cand;
  }

  /** The state `st` carries out the piece `p`, given the option and argument found. */
  predicate Settles(p: Piece, st: bv32, current: Found, data: Option<CStr>) {
    if st == S_NORMAL | I_ASSIGN | I_ADVARG then current.Hit? && p == Piece([current.e], [data], [], Go1)
    else if st == S_NORMAL | I_ASSIGN | I_ADVARG2 then current.Hit? && p == Piece([current.e], [data], [], Go2)
    else Fails(p, st)
  }

  predicate Fails(p: Piece, st: bv32) {
    p.next.Fail? && st == ErrorState(p.next.err) && p == Piece([], [], [], Fail(ErrorCode(st)))
  }

  /** HX_getopt_twolong */
  method StepTwoLong(key: CStr, value: Option<CStr>, par: Vars) returns (st: bv32)
    requires |key| >= 2
    modifies par`current, par`data
    ensures Settles(TwoLong(par.table, key[2..], value), st, par.current, par.data)
  {
    par.current := FindLong(par.table, key[2..]);
    if par.current == Ambiguous {
      return ErrorState(ERR_AMBIG);
    }
    if par.current == Missing {
      return ErrorState(ERR_UNKN);
    }
    if TakesVoid(par.current.e) {
      par.data := None;
      return S_NORMAL | I_ASSIGN | I_ADVARG;
    }
    st := StepArg(value, par, ErrorState(ERR_MIS));
  }

  /** The part that HX_getopt_twolong and HX_getopt_short share: the next word may be the argument. */
  method StepArg(value: Option<CStr>, par: Vars, missing: bv32) returns (st: bv32)
    requires par.current.Hit? && missing == ErrorState(ERR_MIS)
    modifies par`data
    ensures Settles(WithArg(par.current.e, value), st, par.current, par.data)
  {
    if IsOptional(par.current.e) {
      if value == None || At(value.value, 0) != '-' || (At(value.value, 0) == '-' && At(value.value, 1) == '\0') {
        par.data := value;
        st := S_NORMAL | I_ASSIGN | I_ADVARG2;
      } else {
        par.data := None;
        st := S_NORMAL | I_ASSIGN | I_ADVARG;
      }
    } else if value == None {
      st := missing;
    } else {
      par.data := value;
      st := S_NORMAL | I_ASSIGN | I_ADVARG2;
    }
  }

  /** HX_getopt_long */
  method StepLong(cur: CStr, par: Vars) returns (st: bv32)
    requires IsLong(cur) && Equals(cur, 2).Some?
    modifies par`current, par`data, par`desc, par`oarg
    ensures var p := LongWord(par.table, cur);
      if st == S_NORMAL | I_ADVARG
      then p == Piece(p.desc, p.oarg, [], Go1) && par.desc == old(par.desc) + p.desc && par.oarg ==
        old(par.oarg) + p.oarg
      else Fails(p, st) && par.desc == old(par.desc) && par.oarg == old(par.oarg)
  {
    EqualsIn(cur, 2);
    var k := Equals(cur, 2).value;
    par.current := FindLong(par.table, cur[2..k]);
    if par.current == Ambiguous {
      return ErrorState(ERR_AMBIG);
    }
    if par.current == Missing {
      return ErrorState(ERR_UNKN);
    }
    if TakesVoid(par.current.e) {
      return ErrorState(ERR_VOID);
    }
    par.data := Some(cur[k + 1..]);
    par.Assign();
    st := S_NORMAL | I_ADVARG;
  }

  /** HX_getopt_short */
  method StepShort(key: CStr, value: Option<CStr>, par: Vars) returns (st: bv32)
    modifies par`current, par`data
    ensures if st == S_NORMAL | I_ADVARG then key == ""
            else if st == S_SHORT | I_ASSIGN | I_ADVCHAR then
              |key| > 0 && par.current.Hit? && par.data == None
              && Cluster(par.table, key, value) == Cons(par.current.e, Cluster(par.table, key[1..], value))
            else Settles(Cluster(par.table, key, value), st, par.current, par.data)
  {
    var op := At(key, 0);
    if op == '\0' {
      return S_NORMAL | I_ADVARG;
    }
    par.current := FindShort(par.table, op);
    if par.current == Missing {
      return ErrorState(ERR_UNKN);
    }
    if TakesVoid(par.current.e) {
      par.data := None;
      return S_SHORT | I_ASSIGN | I_ADVCHAR;
    }
    if At(key, 1) != '\0' {
      par.data := Some(key[1..]);
      return S_NORMAL | I_ASSIGN | I_ADVARG;
    }
    st := StepArg(value, par, ErrorState(ERR_MIS));
  }

  /** The state `st` is the right one for a word that means `p`. */
  predicate Classifies(table: seq<Entry>, p: Piece, cur: CStr, value: Option<CStr>, st: bv32) {
    if st == S_NORMAL | I_ADVARG then p == Piece([], [], [cur], Go1)
    else if st == S_TERMINATED | I_ADVARG then p == Piece([], [], [], End(1))
    else if st == S_TERMINATED then p == Piece([], [], [], End(0))
    else if st == S_TWOLONG then |cur| >= 2 && p == TwoLong(table, cur[2..], value)
    else if st == S_LONG then IsLong(cur) && Equals(cur, 2).Some? && p == LongWord(table, cur)
    else st == S_SHORT | I_ADVCHAR && |cur| >= 1 && p == Cluster(table, cur[1..], value)
  }

  /** HX_getopt_normal */
  method StepNormal(cur: CStr, order: bool, par: Vars) returns (st: bv32)
    modifies par`uarg
    ensures forall value :: Classifies(par.table, Word(par.table, order, cur, value), cur, value, st)
    ensures par.uarg == if st == S_NORMAL | I_ADVARG then old(par.uarg) + [cur] else old(par.uarg)
  {
    if At(cur, 0) == '-' && At(cur, 1) == '\0' {
      par.uarg := par.uarg + [cur];
      return S_NORMAL | I_ADVARG;
    }
    if At(cur, 0) == '-' && At(cur, 1) == '-' && At(cur, 2) == '\0' {
      return S_TERMINATED | I_ADVARG;
    }
    if At(cur, 0) == '-' && At(cur, 1) == '-' {
      if Equals(cur, 2) == None {
        return S_TWOLONG;
      }
      return S_LONG;
    }
    if At(cur, 0) == '-' {
      return S_SHORT | I_ADVCHAR;
    }
    if order {
      return S_TERMINATED;
    }
    par.uarg := par.uarg + [cur];
    st := S_NORMAL | I_ADVARG;
  }

  /** How parsing of `rem` goes on when its first word means `p`. */
  function After(table: seq<Entry>, order: bool, p: Piece, rem: seq<CStr>): Out
    requires |rem| > 0
  {
    match p.next
    case Go1 => Join(p, Parse(table, order, rem[1..]))
    case Go2 => Join(p, Parse(table, order, Drop(rem, 2)))
    case Fail(err) => Join(p, Out([], [], [], err))
    case End(n) => Join(p, Out([], [], Drop(rem, n), ERR_SUCCESS))
  }

  /** What is still to come in a state: `op0` is the cursor, `rem` the words left. */
  ghost function Left(table: seq<Entry>, order: bool, state: bv32, op0: CStr, rem: seq<CStr>): Out {
    if |rem| == 0 then NONE
    else if state == S_NORMAL then Parse(table, order, rem)
    else if state == S_SHORT then After(table, order, Cluster(table, op0, Second(rem)), rem)
    else if state == S_TWOLONG && |op0| >= 2 then After(table, order, TwoLong(table, op0[2..], Second(rem)), rem)
    else if state == S_LONG && IsLong(op0) && Equals(op0, 2).Some? then After(table, order, LongWord(table, op0), rem)
    else Out([], [], rem, ERR_SUCCESS)
  }

  /** States in which the cursor is at the start of a word, and what is known of it. */
  ghost predicate CursorOk(state: bv32, op0: CStr, rem: seq<CStr>) {
    |rem| > 0 ==>
      (state == S_SHORT || op0 == rem[0])
      && (state == S_NORMAL || state == S_SHORT || (state == S_TWOLONG && |op0| >= 2)
          || (state == S_LONG && IsLong(op0) && Equals(op0, 2).Some?) || state == S_TERMINATED)
  }

  /** What the parser has, followed by what is to come. */
  ghost function Total(desc: seq<Entry>, oarg: seq<Option<CStr>>, uarg: seq<CStr>, o: Out): Out {
    Out(desc + o.desc, oarg + o.oarg, uarg + o.uarg, o.err)
  }

  /** The words left after the flags of `st` have been obeyed, and the cursor then. */
  ghost function Remaining(st: bv32, rem: seq<CStr>): seq<CStr>
    requires |rem| > 0
  {
    if st & I_ADVARG != 0 then rem[1..] else if st & I_ADVARG2 != 0 then Drop(rem, 2) else rem
  }

  ghost function Cursor(st: bv32, op0: CStr, rem: seq<CStr>): CStr
    requires |rem| > 0
  {
    var next := Remaining(st, rem);
    if st & (I_ADVARG | I_ADVARG2) != 0 then (if |next| > 0 then next[0] else op0)
    else if st & I_ADVCHAR != 0 && |op0| > 0 then op0[1..]
    else op0
  }

  /** Obeying `st` keeps to the grammar: `left` is what was to come before. */
  ghost predicate Turned(table: seq<Entry>, order: bool, before: Out, desc: seq<Entry>, oarg: seq<Option<CStr>>,
                         uarg: seq<CStr>,
                         current: Found, data: Option<CStr>, st: bv32, op0: CStr, rem: seq<CStr>)
    requires |rem| > 0
  {
    if st & I_ERROR != 0 then before == Out(desc, oarg, uarg, ErrorCode(st))
    else
      var state, op1, rem1 := st & !I_MASK, Cursor(st, op0, rem), Remaining(st, rem);
      var left := Left(table, order, state, op1, rem1);
      CursorOk(state, op1, rem1)
      && if st & I_ASSIGN != 0
         then current.Hit? && before == Total(desc + [current.e], oarg + [data], uarg, left)
         else before == Total(desc, oarg, uarg, left)
  }

  /** The flags with which a state may come. */
  predicate Progress(state: bv32, st: bv32, op0: CStr) {
    st & I_ERROR != 0 || st & (I_ADVARG | I_ADVARG2) != 0
    || (state == S_SHORT && st & I_ADVCHAR != 0 && st & !I_MASK == S_SHORT && |op0| > 0)
    || (state == S_NORMAL && st & !I_MASK != S_NORMAL && (st & I_ADVCHAR != 0 ==> |op0| > 0))
  }

  lemma LeftNormal(table: seq<Entry>, order: bool, op0: CStr, rem: seq<CStr>)
    ensures Left(table, order, S_NORMAL, op0, rem) == Parse(table, order, rem)
    ensures |rem| > 0 && op0 == rem[0] ==> CursorOk(S_NORMAL, op0, rem)
    ensures |rem| == 0 ==> CursorOk(S_NORMAL, op0, rem)
  {
  }

  /** The flags of a state that has found an option. */
  lemma FoundFlags(st: bv32)
    requires st == S_NORMAL | I_ASSIGN | I_ADVARG || st == S_NORMAL | I_ASSIGN | I_ADVARG2
    ensures st & I_ERROR == 0 && st & I_ASSIGN != 0 && st & !I_MASK == S_NORMAL && st & (I_ADVARG | I_ADVARG2) != 0
    ensures st & I_ADVARG != 0 <==> st == S_NORMAL | I_ASSIGN | I_ADVARG
    ensures st & I_ADVARG == 0 ==> st & I_ADVARG2 != 0
  {
  }

  lemma FoundTurned(table: seq<Entry>, order: bool, p: Piece, desc: seq<Entry>, oarg: seq<Option<CStr>>,
                    uarg: seq<CStr>,
                    current: Found, data: Option<CStr>, st: bv32, op0: CStr, rem: seq<CStr>)
    requires |rem| > 0 && current.Hit?
    requires st == S_NORMAL | I_ASSIGN | I_ADVARG || st == S_NORMAL | I_ASSIGN | I_ADVARG2
    requires p == Piece([current.e], [data], [], if st == S_NORMAL | I_ASSIGN | I_ADVARG then Go1 else Go2)
    ensures Turned(table, order, Total(desc, oarg, uarg, After(table, order, p, rem)), desc, oarg, uarg, current,
      data, st, op0, rem)
  {
    hide Parse, Left, CursorOk;
    FoundFlags(st);
    var rem1 := Remaining(st, rem);
    LeftNormal(table, order, Cursor(st, op0, rem), rem1);
    var o := Parse(table, order, rem1);
    assert desc + ([current.e] + o.desc) == desc + [current.e] + o.desc;
    assert oarg + ([data] + o.oarg) == oarg + [data] + o.oarg;
    assert [] + o.uarg == o.uarg;
  }

  lemma SettlesTurned(table: seq<Entry>, order: bool, p: Piece, desc: seq<Entry>, oarg: seq<Option<CStr>>,
                      uarg: seq<CStr>,
                      current: Found, data: Option<CStr>, st: bv32, op0: CStr, rem: seq<CStr>)
    requires |rem| > 0 && Settles(p, st, current, data)
    ensures Turned(table, order, Total(desc, oarg, uarg, After(table, order, p, rem)), desc, oarg, uarg, current,
      data, st, op0, rem)
    ensures st & I_ERROR != 0 || st & (I_ADVARG | I_ADVARG2) != 0
  {
    hide Turned, After;
    if st == S_NORMAL | I_ASSIGN | I_ADVARG || st == S_NORMAL | I_ASSIGN | I_ADVARG2 {
      FoundTurned(table, order, p, desc, oarg, uarg, current, data, st, op0, rem);
    } else {
      FailsTurned(table, order, p, desc, oarg, uarg, current, data, st, op0, rem);
    }
  }

  lemma FailsTurned(table: seq<Entry>, order: bool, p: Piece, desc: seq<Entry>, oarg: seq<Option<CStr>>,
                    uarg: seq<CStr>,
                    current: Found, data: Option<CStr>, st: bv32, op0: CStr, rem: seq<CStr>)
    requires |rem| > 0 && Fails(p, st)
    ensures Turned(table, order, Total(desc, oarg, uarg, After(table, order, p, rem)), desc, oarg, uarg, current,
      data, st, op0, rem)
    ensures st & I_ERROR != 0
  {
  }

  lemma LongTurned(table: seq<Entry>, order: bool, p: Piece, desc: seq<Entry>, oarg: seq<Option<CStr>>, uarg: seq<CStr>,
                   current: Found, data: Option<CStr>, op0: CStr, rem: seq<CStr>)
    requires |rem| > 0 && p == Piece(p.desc, p.oarg, [], Go1)
    ensures Turned(table, order, Total(desc, oarg, uarg, After(table, order, p, rem)), desc + p.desc, oarg + p.oarg,
      uarg,
                   current, data, S_NORMAL | I_ADVARG, op0, rem)
  {
    var o := Parse(table, order, rem[1..]);
    assert desc + (p.desc + o.desc) == desc + p.desc + o.desc;
    assert oarg + (p.oarg + o.oarg) == oarg + p.oarg + o.oarg;
    assert [] + o.uarg == o.uarg;
  }

  lemma LetterTurned(table: seq<Entry>, order: bool, desc: seq<Entry>, oarg: seq<Option<CStr>>, uarg: seq<CStr>,
                     current: Found, op0: CStr, rem: seq<CStr>)
    requires |rem| > 0 && |op0| > 0 && current.Hit?
    ensures var p := Cluster(table, op0[1..], Second(rem));
      Turned(table, order, Total(desc, oarg, uarg, After(table, order, Cons(current.e, p), rem)), desc, oarg, uarg,
             current, None, S_SHORT | I_ASSIGN | I_ADVCHAR, op0, rem)
  {
    hide Cluster, Parse;
    var p := Cluster(table, op0[1..], Second(rem));
    var o, o' := After(table, order, Cons(current.e, p), rem), After(table, order, p, rem);
    assert o.desc == [current.e] + o'.desc;
    assert o.oarg == [None] + o'.oarg;
    assert desc + o.desc == desc + [current.e] + o'.desc;
    assert oarg + o.oarg == oarg + [None] + o'.oarg;
  }

  lemma OperandTurned(table: seq<Entry>, order: bool, desc: seq<Entry>, oarg: seq<Option<CStr>>, uarg: seq<CStr>,
                      current: Found, data: Option<CStr>, rem: seq<CStr>)
    requires |rem| > 0
    ensures var p := Piece([], [], [rem[0]], Go1);
      Turned(table, order, Total(desc, oarg, uarg, After(table, order, p, rem)), desc, oarg, uarg + [rem[0]],
             current, data, S_NORMAL | I_ADVARG, rem[0], rem)
    ensures Turned(table, order, Total(desc, oarg, uarg, Out([], [], rem, ERR_SUCCESS)), desc, oarg, uarg + [rem[0]],
                   current, data, S_TERMINATED | I_ADVARG, rem[0], rem)
  {
    var o := Parse(table, order, rem[1..]);
    assert uarg + ([rem[0]] + o.uarg) == uarg + [rem[0]] + o.uarg;
    assert uarg + rem == uarg + [rem[0]] + rem[1..];
  }

  lemma NormalTurned(table: seq<Entry>, order: bool, desc: seq<Entry>, oarg: seq<Option<CStr>>, uarg: seq<CStr>,
                     uarg': seq<CStr>,
                     current: Found, data: Option<CStr>, st: bv32, rem: seq<CStr>)
    requires |rem| > 0 && Classifies(table, Word(table, order, rem[0], Second(rem)), rem[0], Second(rem), st)
    requires uarg' == if st == S_NORMAL | I_ADVARG then uarg + [rem[0]] else uarg
    ensures Turned(table, order, Total(desc, oarg, uarg, Parse(table, order, rem)), desc, oarg, uarg', current, data,
      st, rem[0], rem)
    ensures Progress(S_NORMAL, st, rem[0])
  {
    var p := Word(table, order, rem[0], Second(rem));
    hide Word, Classifies;
    assert Parse(table, order, rem) == After(table, order, p, rem);
    if st == S_NORMAL | I_ADVARG {
      OperandTurned(table, order, desc, oarg, uarg, current, data, rem);
    }
  }

  /** A state function is called and its flags make the next state. */
  method Turn(state: bv32, op0: CStr, value: Option<CStr>, order: bool, par: Vars, ghost rem: seq<CStr>)
    returns (st: bv32)
    requires |rem| > 0 && value == Second(rem) && CursorOk(state, op0, rem)
    modifies par`current, par`data, par`desc, par`oarg, par`uarg
    ensures Turned(par.table, order, Total(old(par.desc), old(par.oarg), old(par.uarg), Left(par.table, order, state,
      op0, rem)),
                   par.desc, par.oarg, par.uarg, par.current, par.data, st, op0, rem)
    ensures Progress(state, st, op0)
  {
    ghost var desc, oarg, uarg := par.desc, par.oarg, par.uarg;
    hide Settles, Turned, Classifies, Cluster, TwoLong, LongWord, Parse, Word, After;
    if state == S_TWOLONG {
      st := StepTwoLong(op0, value, par);
      SettlesTurned(par.table, order, TwoLong(par.table, op0[2..], value), desc, oarg, uarg, par.current, par.data,
                    st, op0, rem);
    } else if state == S_LONG {
      st := StepLong(op0, par);
      if st == S_NORMAL | I_ADVARG {
        LongTurned(par.table, order, LongWord(par.table, op0), desc, oarg, uarg, par.current, par.data, op0, rem);
      } else {
        FailsTurned(par.table, order, LongWord(par.table, op0), desc, oarg, uarg, par.current, par.data, st, op0, rem);
      }
    } else if state == S_SHORT {
      st := StepShort(op0, value, par);
      if st == S_NORMAL | I_ADVARG {
        LongTurned(par.table, order, Piece([], [], [], Go1), desc, oarg, uarg, par.current, par.data, op0, rem);
      } else if st == S_SHORT | I_ASSIGN | I_ADVCHAR {
        LetterTurned(par.table, order, desc, oarg, uarg, par.current, op0, rem);
      } else {
        SettlesTurned(par.table, order, Cluster(par.table, op0, value), desc, oarg, uarg, par.current, par.data, st,
                      op0, rem);
      }
    } else if state == S_TERMINATED {
      OperandTurned(par.table, order, desc, oarg, uarg, par.current, par.data, rem);
      par.uarg := par.uarg + [op0];
      st := S_TERMINATED | I_ADVARG;
    } else {
      st := StepNormal(op0, order, par);
      NormalTurned(par.table, order, desc, oarg, uarg, par.uarg, par.current, par.data, st, rem);
    }
  }

  /** The loop of HX_getopt6 over the words after the program name. */
  method Loop(words: seq<CStr>, order: bool, par: Vars) returns (ret: int)
    requires par.desc == [] && par.oarg == [] && par.uarg == []
    modifies par
    ensures Out(par.desc, par.oarg, par.uarg, ret) == Parse(par.table, order, words)
  {
    hide Turned, Parse, Left, Cursor, Remaining;
    var state, opt, argc: int := S_NORMAL, 0, |words|;
    var op0: CStr := if argc > 0 then words[0] else "";
    ghost var rem := words;
    LeftStart(par.table, order, op0, words);
    while argc > 0
      invariant argc <= |words| && |rem| == (if argc > 0 then argc else 0)
      invariant (argc > 0 ==> opt + argc == |words| && rem == words[opt..])
      invariant CursorOk(state, op0, rem)
      invariant Total(par.desc, par.oarg, par.uarg, Left(par.table, order, state, op0, rem)) ==
        Parse(par.table, order, words)
      decreases argc, if state == S_NORMAL then 1 else 0, |op0|
    {
      var value: Option<CStr> := if argc > 1 then Some(words[opt + 1]) else None;
      var st := Turn(state, op0, value, order, par, rem);
      Obey(par.table, order, Parse(par.table, order, words), par.desc, par.oarg, par.uarg, par.current, par.data, st,
           op0, rem);
      ghost var next := Remaining(st, rem);
      if st & I_ERROR != 0 {
        return ErrorCode(st);
      }
      if st & I_ASSIGN != 0 {
        par.Assign();
      }
      if st & I_ADVARG != 0 {
        argc := argc - 1;
        opt := opt + 1;
        if argc > 0 {
          op0 := words[opt];
        }
      } else if st & I_ADVARG2 != 0 {
        opt := opt + 2;
        argc := argc - 2;
        if argc > 0 {
          op0 := words[opt];
        }
      } else if st & I_ADVCHAR != 0 {
        op0 := op0[1..];
      }
      state := st & !I_MASK;
      rem := next;
    }
    LeftEnd(par.table, order, state, op0, par.desc, par.oarg, par.uarg);
    ret := ERR_SUCCESS;
  }

  lemma LeftStart(table: seq<Entry>, order: bool, op0: CStr, words: seq<CStr>)
    requires |words| > 0 ==> op0 == words[0]
    ensures CursorOk(S_NORMAL, op0, words)
    ensures Total([], [], [], Left(table, order, S_NORMAL, op0, words)) == Parse(table, order, words)
  {
  }

  lemma LeftEnd(table: seq<Entry>, order: bool, state: bv32, op0: CStr, desc: seq<Entry>, oarg: seq<Option<CStr>>,
                uarg: seq<CStr>)
    ensures Total(desc, oarg, uarg, Left(table, order, state, op0, [])) == Out(desc, oarg, uarg, ERR_SUCCESS)
  {
  }

  /** What Turned says, flag by flag. */
  lemma Obey(table: seq<Entry>, order: bool, all: Out, desc: seq<Entry>, oarg: seq<Option<CStr>>, uarg: seq<CStr>,
             current: Found, data: Option<CStr>, st: bv32, op0: CStr, rem: seq<CStr>)
    requires |rem| > 0 && Turned(table, order, all, desc, oarg, uarg, current, data, st, op0, rem)
    ensures st & I_ERROR != 0 ==> all == Out(desc, oarg, uarg, ErrorCode(st))
    ensures st & I_ERROR == 0 ==> CursorOk(st & !I_MASK, Cursor(st, op0, rem), Remaining(st, rem))
    ensures st & I_ERROR == 0 && st & I_ASSIGN != 0 ==> current.Hit?
    ensures st & I_ERROR == 0 && st & I_ASSIGN != 0 ==>
      all == Total(desc + [current.e], oarg + [data], uarg, Left(table, order, st & !I_MASK, Cursor(st, op0, rem),
        Remaining(st, rem)))
    ensures st & I_ERROR == 0 && st & I_ASSIGN == 0 ==>
      all == Total(desc, oarg, uarg, Left(table, order, st & !I_MASK, Cursor(st, op0, rem), Remaining(st, rem)))
    ensures Remaining(st, rem) == if st & I_ADVARG != 0 then rem[1..] else if st & I_ADVARG2 != 0
      then Drop(rem, 2) else rem
    ensures st & (I_ADVARG | I_ADVARG2) != 0 ==>
      Cursor(st, op0, rem) == if |Remaining(st, rem)| > 0 then Remaining(st, rem)[0] else op0
    ensures st & (I_ADVARG | I_ADVARG2) == 0 ==>
      Cursor(st, op0, rem) == if st & I_ADVCHAR != 0 && |op0| > 0 then op0[1..] else op0
  {
  }

  /** Flags that contradict each other, or that ask for results with nowhere to put them. */
  predicate BadFlags(flags: bv32, haveResult: bool) {
    flags & (RQ_ORDER | ANY_ORDER) == RQ_ORDER | ANY_ORDER || (!haveResult && flags & ITERATES != 0)
  }

  /** HX_getopt6: `par` holds the options, their arguments and the operands found; the caller's
      result, if there is one, receives them when 0 is returned.  `posix` is posix_me_harder(). */
  method Getopt6(table: seq<Entry>, argv: seq<CStr>, haveResult: bool, flags: bv32, posix: bool)
    returns (ret: int, arg0: Option<CStr>, par: Vars)
    ensures par.table == table && fresh(par)
    ensures BadFlags(flags, haveResult) ==> ret == -EINVAL && arg0 == None
    ensures BadFlags(flags, haveResult) ==> par.desc == [] && par.oarg == [] && par.uarg == []
    ensures !BadFlags(flags, haveResult) ==>
      var order := flags & RQ_ORDER != 0 || (flags & ANY_ORDER == 0 && posix);
      Out(par.desc, par.oarg, par.uarg, ret) == Parse(table, order, if |argv| > 0 then argv[1..] else [])
      && arg0 == if |argv| > 0 then Some(argv[0]) else None
  {
    hide Parse;
    par := new Vars(table, flags);
    arg0 := None;
    if flags & (RQ_ORDER | ANY_ORDER) == RQ_ORDER | ANY_ORDER {
      return -EINVAL, arg0, par;
    }
    if !haveResult && flags & ITERATES != 0 {
      return -EINVAL, arg0, par;
    }
    var words := argv;
    if |argv| > 0 {
      arg0, words := Some(argv[0]), argv[1..];
    }
    if flags & ANY_ORDER == 0 && posix {
      par.flags := par.flags | RQ_ORDER;
    }
    OrderFlag(flags);
    ret := Loop(words, par.flags & RQ_ORDER != 0, par);
  }

  lemma OrderFlag(flags: bv32)
    ensures (flags | RQ_ORDER) & RQ_ORDER != 0
  {
  }
}
