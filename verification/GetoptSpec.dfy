/** The language HX_getopt6 (src/opt.c) accepts, word by word. */
module GetoptSpec {
  import opened MapTypes
  import opened CString

  const TYPEMASK: bv32 := 0x1F
  const OPTIONAL: bv32 := 0x40

  const ERR_SUCCESS: int := 0
  const ERR_UNKN: int := 1
  const ERR_VOID: int := 2
  const ERR_MIS: int := 3
  const ERR_AMBIG: int := 4

  /** struct HXoption, as far as parsing depends on it. */
  datatype Entry = Entry(ln: Option<CStr>, sh: char, typ: bv32)

  /** takes_void: NONE, VAL, SVAL, XSNTMARK and XHELP. */
  predicate TakesVoid(e: Entry) {
    var t := e.typ & TYPEMASK;
    t == 0 || t == 1 || t == 2 || t == 29 || t == 30
  }

  predicate IsOptional(e: Entry) {
    e.typ & OPTIONAL != 0
  }

  datatype Found = Missing | Ambiguous | Hit(e: Entry)

  function LookupShort(table: seq<Entry>, c: char): Option<Entry> {
    if |table| == 0 then None
    else if table[0].sh == c then Some(table[0])
    else LookupShort(table[1..], c)
  }

  predicate Abbreviates(key: CStr, e: Entry) {
    e.ln.Some? && key <= e.ln.value
  }

  /** Long names by prefix, in table order, given the candidate found so far. */
  function LookupFrom(table: seq<Entry>, key: CStr, cand: Found): Found {
    if |table| == 0 then cand
    else if !Abbreviates(key, table[0]) then LookupFrom(table[1..], key, cand)
    else if table[0].ln.value == key then Hit(table[0])
    else if cand != Missing then Ambiguous
    else LookupFrom(table[1..], key, Hit(table[0]))
  }

  function Lookup(table: seq<Entry>, key: CStr): Found {
    LookupFrom(table, key, Missing)
  }

  /** How parsing goes on after a word: one or two words further, not at all, or with operands only. */
  datatype Next = Go1 | Go2 | Fail(err: int) | End(words: nat)

  /** What a word contributes: options, their arguments, operands. */
  datatype Piece = Piece(desc: seq<Entry>, oarg: seq<Option<CStr>>, uarg: seq<CStr>, next: Next)

  /** An argument is offered to an optional-argument option unless it looks like an option. */
  predicate Offers(value: Option<CStr>) {
    value == None || At(value.value, 0) != '-' || value.value == "-"
  }

  function WithArg(e: Entry, value: Option<CStr>): Piece {
    if IsOptional(e) then
      if Offers(value) then Piece([e], [value], [], Go2) else Piece([e], [None], [], Go1)
    else if value == None then Piece([], [], [], Fail(ERR_MIS))
    else Piece([e], [value], [], Go2)
  }

  /** --name */
  function TwoLong(table: seq<Entry>, key: CStr, value: Option<CStr>): Piece {
    match Lookup(table, key)
    case Ambiguous => Piece([], [], [], Fail(ERR_AMBIG))
    case Missing => Piece([], [], [], Fail(ERR_UNKN))
    case Hit(e) => if TakesVoid(e) then Piece([e], [None], [], Go1) else WithArg(e, value)
  }

  /** --name=value */
  function Long(table: seq<Entry>, key: CStr, value: CStr): Piece {
    match Lookup(table, key)
    case Ambiguous => Piece([], [], [], Fail(ERR_AMBIG))
    case Missing => Piece([], [], [], Fail(ERR_UNKN))
    case Hit(e) => if TakesVoid(e) then Piece([], [], [], Fail(ERR_VOID)) else Piece([e], [Some(value)], [], Go1)
  }

  function Cons(e: Entry, p: Piece): Piece {
    p.(desc := [e] + p.desc, oarg := [None] + p.oarg)
  }

  /** The letters of -abc. */
  function Cluster(table: seq<Entry>, letters: CStr, value: Option<CStr>): Piece {
    if |letters| == 0 then Piece([], [], [], Go1)
    else match LookupShort(table, letters[0])
      case None => Piece([], [], [], Fail(ERR_UNKN))
      case Some(e) =>
        if TakesVoid(e) then Cons(e, Cluster(table, letters[1..], value))
        else if |letters| > 1 then Piece([e], [Some(letters[1..])], [], Go1)
        else WithArg(e, value)
  }

  /** The place of the first '=' at or after `i`. */
  function Equals(w: CStr, i: nat): Option<nat>
    requires i <= |w|
    decreases |w| - i
  {
    if i == |w| then None else if w[i] == '=' then Some(i) else Equals(w, i + 1)
  }

  lemma EqualsIn(w: CStr, i: nat)
    requires i <= |w|
    ensures match Equals(w, i) case None => '=' !in w[i..]
      case Some(k) => i <= k < |w| && w[k] == '=' && '=' !in w[i..k]
    decreases |w| - i
  {
  }

  predicate IsLong(w: CStr) {
    |w| > 2 && w[..2] == "--"
  }

  function LongWord(table: seq<Entry>, w: CStr): Piece
    requires IsLong(w) && Equals(w, 2).Some?
  {
    EqualsIn(w, 2);
    var k := Equals(w, 2).value;
    Long(table, w[2..k], w[k + 1..])
  }

  predicate IsShort(w: CStr) {
    |w| > 1 && w[0] == '-' && w[1] != '-'
  }

  /** One word in normal state, with the word after it. */
  function Word(table: seq<Entry>, order: bool, w: CStr, value: Option<CStr>): Piece {
    if w == "--" then Piece([], [], [], End(1))
    else if IsLong(w) then
      if Equals(w, 2) == None then TwoLong(table, w[2..], value) else LongWord(table, w)
    else if IsShort(w) then Cluster(table, w[1..], value)
    else if w != "-" && order then Piece([], [], [], End(0))
    else Piece([], [], [w], Go1)
  }

  datatype Out = Out(desc: seq<Entry>, oarg: seq<Option<CStr>>, uarg: seq<CStr>, err: int)

  const NONE: Out := Out([], [], [], ERR_SUCCESS)

  function Join(p: Piece, o: Out): Out {
    Out(p.desc + o.desc, p.oarg + o.oarg, p.uarg + o.uarg, o.err)
  }

  function Drop<T>(s: seq<T>, n: nat): seq<T> {
    if n <= |s| then s[n..] else []
  }

  function Second(words: seq<CStr>): Option<CStr> {
    if |words| > 1 then Some(words[1]) else None
  }

  /** The meaning of an argument vector without the program name. */
  function Parse(table: seq<Entry>, order: bool, words: seq<CStr>): Out
    decreases |words|
  {
    if |words| == 0 then NONE
    else
      var p := Word(table, order, words[0], Second(words));
      match p.next
      case Go1 => Join(p, Parse(table, order, words[1..]))
      case Go2 => Join(p, Parse(table, order, Drop(words, 2)))
      case Fail(err) => Join(p, Out([], [], [], err))
      case End(n) => Join(p, Out([], [], Drop(words, n), ERR_SUCCESS))
  }
}
