/** The word counter of homework_count_perword.c: a four-state tokenizer that knows hyphens,
    filling a 27-way trie, and the traversal that lists it. */
module WordTrie {
  import opened WordText

  /** Letters are 0 to 25, the hyphen 26. */
  type Symbol = x: int | 0 <= x < 27

  type Word = seq<Symbol>

  const HYPHEN: Symbol := 26

  predicate IsLetter(c: char) { 'a' <= c <= 'z' || 'A' <= c <= 'Z' }

  function Code(c: char): Symbol
    requires IsLetter(c)
  {
    if 'A' <= c <= 'Z' then c as int - 'A' as int else c as int - 'a' as int
  }

  // ---- what the words of a text are ----

  /** How a word goes on: letters, hyphens before a letter, and letters after a hyphen at the
      end of a line, where the hyphen is dropped. */
  function Rest(t: string): Word
    decreases |t|
  {
    if t == "" then []
    else if IsLetter(t[0]) then [Code(t[0])] + Rest(t[1..])
    else if t[0] == '-' && |t| > 1 && IsLetter(t[1]) then [HYPHEN, Code(t[1])] + Rest(t[2..])
    else if t[0] == '-' && |t| > 2 && t[1] == '\n' && IsLetter(t[2]) then [Code(t[2])] + Rest(t[3..])
    else []
  }

  function AfterRest(t: string): (r: string)
    ensures |r| <= |t|
    decreases |t|
  {
    if t == "" then ""
    else if IsLetter(t[0]) then AfterRest(t[1..])
    else if t[0] == '-' && |t| > 1 && IsLetter(t[1]) then AfterRest(t[2..])
    else if t[0] == '-' && |t| > 2 && t[1] == '\n' && IsLetter(t[2]) then AfterRest(t[3..])
    else t
  }

  function Words(t: string): seq<Word>
    decreases |t|
  {
    if t == "" then []
    else if IsLetter(t[0]) then [[Code(t[0])] + Rest(t[1..])] + Words(AfterRest(t[1..]))
    else Words(t[1..])
  }

  // ---- the state machine ----

  datatype State = OUT | IN | TEMP | TEMP1

  /** The state, the word being read, and the words counted so far. */
  datatype Config = Config(state: State, cur: Word, done: seq<Word>)

  function Close(m: Config): Config { Config(OUT, [], m.done + [m.cur]) }

  function Step(m: Config, c: char): Config {
    match m.state
    case OUT => if IsLetter(c) then Config(IN, [Code(c)], m.done) else m
    case IN =>
      if IsLetter(c) then m.(cur := m.cur + [Code(c)])
      else if c == '-' then m.(state := TEMP)
      else Close(m)
    case TEMP =>
      if IsLetter(c) then m.(state := IN, cur := m.cur + [HYPHEN] + [Code(c)])
      else if c == '\n' then m.(state := TEMP1)
      else Close(m)
    case TEMP1 => if IsLetter(c) then m.(state := IN, cur := m.cur + [Code(c)]) else Close(m)
  }

  function Steps(m: Config, t: string): Config
    decreases |t|
  {
    if t == "" then m else Steps(Step(m, t[0]), t[1..])
  }

  /** At the end of the file an open word counts. */
  function Finish(m: Config): seq<Word> { if m.state.OUT? then m.done else m.done + [m.cur] }

  function Start(): Config { Config(OUT, [], []) }

  lemma {:induction false} FromOut(done: seq<Word>, t: string)
    ensures Finish(Steps(Config(OUT, [], done), t)) == done + Words(t)
    decreases |t|, 3
  {
    if t != "" {
      if IsLetter(t[0]) {
        FromIn(done, [Code(t[0])], t[1..]);
        assert done + [[Code(t[0])] + Rest(t[1..])] + Words(AfterRest(t[1..])) == done + Words(t);
      } else {
        FromOut(done, t[1..]);
      }
    }
  }

  /** A word that is over, with c not a letter. */
  lemma Closed(done: seq<Word>, w: Word, t: string)
    requires Finish(Steps(Config(OUT, [], done + [w]), t)) == (done + [w]) + Words(t)
    ensures Finish(Steps(Close(Config(IN, w, done)), t)) == done + [w + []] + Words(t)
  {
    assert w + [] == w;
  }

  lemma {:induction false} FromIn(done: seq<Word>, w: Word, t: string)
    ensures Finish(Steps(Config(IN, w, done), t)) == done + [w + Rest(t)] + Words(AfterRest(t))
    decreases |t|, 2
  {
    if t == "" {
      assert w + [] == w && done + [w] + [] == done + [w];
    } else if IsLetter(t[0]) {
      FromIn(done, w + [Code(t[0])], t[1..]);
      assert w + [Code(t[0])] + Rest(t[1..]) == w + Rest(t);
    } else if t[0] == '-' {
      FromTemp(done, w, t);
    } else {
      FromOut(done + [w], t[1..]);
      Closed(done, w, t[1..]);
    }
  }

  /** After the hyphen t[0]. */
  lemma {:induction false} FromTemp(done: seq<Word>, w: Word, t: string)
    requires t != "" && t[0] == '-'
    ensures Finish(Steps(Config(TEMP, w, done), t[1..])) == done + [w + Rest(t)] + Words(AfterRest(t))
    decreases |t|, 1
  {
    if |t| == 1 {
      assert w + [] == w && done + [w] + [] == done + [w] && Words(t) == [];
    } else if IsLetter(t[1]) {
      assert t[1..][1..] == t[2..];
      FromIn(done, w + [HYPHEN] + [Code(t[1])], t[2..]);
      assert w + [HYPHEN] + [Code(t[1])] + Rest(t[2..]) == w + Rest(t);
    } else if t[1] == '\n' {
      FromTemp1(done, w, t);
    } else {
      assert t[1..][1..] == t[2..];
      FromOut(done + [w], t[2..]);
      Closed(done, w, t[2..]);
      assert Words(t) == Words(t[1..]) == Words(t[2..]);
    }
  }

  /** After the hyphen t[0] and the newline t[1]. */
  lemma {:induction false} FromTemp1(done: seq<Word>, w: Word, t: string)
    requires |t| > 1 && t[0] == '-' && t[1] == '\n'
    ensures Finish(Steps(Config(TEMP, w, done), t[1..])) == done + [w + Rest(t)] + Words(AfterRest(t))
    decreases |t|, 0
  {
    assert t[1..][1..] == t[2..];
    assert Words(t) == Words(t[1..]) == Words(t[2..]);
    if |t| == 2 {
      assert w + [] == w && done + [w] + [] == done + [w];
    } else {
      assert t[2..][1..] == t[3..];
      if IsLetter(t[2]) {
        FromIn(done, w + [Code(t[2])], t[3..]);
        assert w + [Code(t[2])] + Rest(t[3..]) == w + Rest(t);
      } else {
        FromOut(done + [w], t[3..]);
        Closed(done, w, t[3..]);
        assert Words(t[2..]) == Words(t[3..]);
      }
    }
  }

  /** The machine finds exactly the words of the text, in order. */
  lemma MachineFindsWords(t: string)
    ensures Finish(Steps(Start(), t)) == Words(t)
  {
    FromOut([], t);
  }

  lemma {:induction false} StepsLast(m: Config, t: string, c: char)
    ensures Steps(m, t + [c]) == Step(Steps(m, t), c)
    decreases |t|
  {
    if t == "" {
      assert (t + [c])[1..] == "";
    } else {
      assert (t + [c])[1..] == t[1..] + [c];
      StepsLast(Step(m, t[0]), t[1..], c);
    }
  }

  // ---- the words in a trie, and its listing ----

  function Letter(x: Symbol): char { if x < 26 then 'a' + x as char else '-' }

  function Text(w: Word): (r: string)
    ensures |r| == |w|
  {
    seq(|w|, i requires 0 <= i < |w| => Letter(w[i]))
  }

  /** What is printed for the code of a letter is its small letter. */
  lemma LetterOfCode(c: char)
    requires InAlphabet(c)
    ensures IsLetter(c) && Letter(Code(c)) == Lower(c) && Code(c) != HYPHEN
    ensures 'A' <= c <= 'Z' ==> Letter(Code(c)) as int - 'a' as int == c as int - 'A' as int
    ensures 'a' <= c <= 'z' ==> Letter(Code(c)) == c
  {
  }

  function Texts(ws: seq<Word>): (r: seq<string>)
    ensures |r| == |ws| && forall i :: 0 <= i < |ws| ==> r[i] == Text(ws[i])
  {
    seq(|ws|, i requires 0 <= i < |ws| => Text(ws[i]))
  }

  lemma TextsCons(w: Word, ws: seq<Word>)
    ensures Texts([w] + ws) == [Text(w)] + Texts(ws)
  {
  }

  /** The words found outside a word. */
  lemma {:induction false} OutsideText(t: string)
    ensures Runs(Unwrapped(t, false), "") == Texts(Words(t))
    decreases |t|, 1
  {
    hide Letter, Code, Text;
    UnwrappedFirst(t);
    if t == "" {
      assert Texts([]) == [];
    } else if IsLetter(t[0]) {
      FirstLetter(t[0]);
      InsideText(t[1..], [Code(t[0])]);
      OneWord([Code(t[0])], t[1..]);
    } else {
      OutsideText(t[1..]);
    }
  }

  lemma FirstLetter(c: char)
    requires IsLetter(c)
    ensures InAlphabet(c) && Text([Code(c)]) == [Lower(c)]
    ensures "" + [Lower(c)] == [Lower(c)]
  {
    LetterOfCode(c);
  }

  lemma OneWord(w: Word, t: string)
    ensures Texts([w + Rest(t)] + Words(AfterRest(t))) == [Text(w + Rest(t))] + Texts(Words(AfterRest(t)))
  {
    TextsCons(w + Rest(t), Words(AfterRest(t)));
  }

  /** A letter, after a hyphen or not, makes the word longer. */
  lemma TextMore(w: Word, c: char)
    requires IsLetter(c)
    ensures Text(w + [Code(c)]) == Text(w) + [Lower(c)]
    ensures Text(w + [HYPHEN]) == Text(w) + "-"
  {
    LetterOfCode(c);
  }

  lemma RestIs(t: string)
    ensures t == "" ==> Rest(t) == [] && AfterRest(t) == "" && Words("") == []
    ensures t != "" ==>
              if IsLetter(t[0]) then
                Rest(t) == [Code(t[0])] + Rest(t[1..]) && AfterRest(t) == AfterRest(t[1..])
              else if t[0] == '-' && |t| > 1 && IsLetter(t[1]) then
                Rest(t) == [HYPHEN, Code(t[1])] + Rest(t[2..]) && AfterRest(t) == AfterRest(t[2..])
              else if t[0] == '-' && |t| > 2 && t[1] == '\n' && IsLetter(t[2]) then
                Rest(t) == [Code(t[2])] + Rest(t[3..]) && AfterRest(t) == AfterRest(t[3..])
              else Rest(t) == [] && AfterRest(t) == t && Words(t) == Words(t[1..])
  {
  }

  /** The words found inside a word. */
  lemma {:induction false} InsideText(t: string, w: Word)
    requires w != []
    ensures Runs(Unwrapped(t, true), Text(w)) == [Text(w + Rest(t))] + Texts(Words(AfterRest(t)))
    decreases |t|, 0
  {
    hide Letter, Code, Text, Texts, Unwrapped, Runs, Rest, AfterRest, Words;
    RestIs(t);
    if t == "" {
      assert w + [] == w;
      InsideEnd(t, w);
    } else if IsLetter(t[0]) {
      InsideLetter(t, w);
      InsideText(t[1..], w + [Code(t[0])]);
      assert w + [Code(t[0])] + Rest(t[1..]) == w + Rest(t);
    } else if t[0] == '-' && |t| > 1 && IsLetter(t[1]) {
      InsideHyphen(t, w);
      InsideText(t[2..], w + [HYPHEN] + [Code(t[1])]);
      assert w + [HYPHEN] + [Code(t[1])] + Rest(t[2..]) == w + Rest(t);
    } else if t[0] == '-' && |t| > 2 && t[1] == '\n' && IsLetter(t[2]) {
      InsideWrap(t, w);
      InsideText(t[3..], w + [Code(t[2])]);
      assert w + [Code(t[2])] + Rest(t[3..]) == w + Rest(t);
    } else {
      assert w + [] == w;
      InsideClose(t, w);
      OutsideText(t[1..]);
    }
  }

  lemma InsideEnd(t: string, w: Word)
    requires w != [] && t == ""
    ensures Runs(Unwrapped(t, true), Text(w)) == [Text(w)] + Texts([])
  {
  }

  lemma InsideLetter(t: string, w: Word)
    requires t != "" && IsLetter(t[0])
    ensures Runs(Unwrapped(t, true), Text(w)) == Runs(Unwrapped(t[1..], true), Text(w + [Code(t[0])]))
  {
    hide Letter, Code, Text;
    TextMore(w, t[0]);
    var u := Unwrapped(t, true);
    assert u == [t[0]] + Unwrapped(t[1..], true);
    assert u[1..] == Unwrapped(t[1..], true);
  }

  /** A word that is over. */
  lemma InsideClose(t: string, w: Word)
    requires w != [] && t != "" && !IsLetter(t[0])
    requires t[0] == '-' ==> (|t| > 1 ==> !IsLetter(t[1])) && (|t| > 2 && t[1] == '\n' ==> !IsLetter(t[2]))
    ensures Runs(Unwrapped(t, true), Text(w)) == [Text(w)] + Runs(Unwrapped(t[1..], false), "")
  {
    hide Letter, Code, Text;
    UnwrappedFirst(t[1..]);
    var u := Unwrapped(t, true);
    assert u == [t[0]] + Unwrapped(t[1..], false);
    assert u[1..] == Unwrapped(t[1..], false);
  }

  lemma InsideHyphen(t: string, w: Word)
    requires w != [] && |t| > 1 && t[0] == '-' && IsLetter(t[1])
    ensures Runs(Unwrapped(t, true), Text(w)) == Runs(Unwrapped(t[2..], true), Text(w + [HYPHEN] + [Code(t[1])]))
  {
    hide Letter, Code, Text;
    TextMore(w, t[1]);
    TextMore(w + [HYPHEN], t[1]);
    UnwrappedFirst(t[1..]);
    assert t[1..][1..] == t[2..];
    var u := Unwrapped(t, true);
    assert u == ['-'] + Unwrapped(t[1..], false);
    assert u[1..] == [t[1]] + Unwrapped(t[2..], true);
    assert u[1..][1..] == Unwrapped(t[2..], true);
  }

  lemma InsideWrap(t: string, w: Word)
    requires w != [] && |t| > 2 && t[0] == '-' && t[1] == '\n' && IsLetter(t[2])
    ensures Runs(Unwrapped(t, true), Text(w)) == Runs(Unwrapped(t[3..], true), Text(w + [Code(t[2])]))
  {
    hide Letter, Code, Text;
    TextMore(w, t[2]);
    UnwrappedFirst(t[2..]);
    assert t[2..][1..] == t[3..];
    var u := Unwrapped(t, true);
    assert u == [t[2]] + Unwrapped(t[3..], true);
    assert u[1..] == Unwrapped(t[3..], true);
  }

  /** The words of a text, printed, are its words as strings. */
  lemma WordsAreTextWords(t: string)
    ensures Texts(Words(t)) == TextWords(t)
  {
    OutsideText(t);
  }

  lemma TextLast(w: Word, x: Symbol)
    ensures Text(w + [x]) == Text(w) + [Letter(x)]
  {
  }

  predicate Distinct(ws: seq<Word>) { forall i, j :: 0 <= i < j < |ws| ==> ws[i] != ws[j] }

  /** v is a proper prefix of w, or has the smaller symbol where they first differ. */
  predicate Earlier(v: Word, w: Word) {
    exists k :: 0 <= k <= |v| && k < |w| && v[..k] == w[..k] && (k == |v| || v[k] < w[k])
  }

  predicate InOrder(ws: seq<Word>) { forall i, j :: 0 <= i < j < |ws| ==> Earlier(ws[i], ws[j]) }

  lemma InOrderDistinct(ws: seq<Word>)
    requires InOrder(ws)
    ensures Distinct(ws)
  {
    forall i, j | 0 <= i < j < |ws| ensures ws[i] != ws[j] {
      assert Earlier(ws[i], ws[j]);
    }
  }

  lemma EarlierText(v: Word, w: Word)
    requires Earlier(v, w)
    ensures Before(Text(v), Text(w))
  {
    var k :| 0 <= k <= |v| && k < |w| && v[..k] == w[..k] && (k == |v| || v[k] < w[k]);
    var s, t := Text(v), Text(w);
    forall i | 0 <= i < k ensures s[i] == t[i] {
      assert v[i] == v[..k][i] && w[i] == w[..k][i];
    }
    assert s[..k] == t[..k];
  }

  lemma TextInjective(v: Word, w: Word)
    requires Text(v) == Text(w)
    ensures v == w
  {
    forall i | 0 <= i < |v| ensures v[i] == w[i] {
      assert Text(v)[i] == Text(w)[i];
    }
  }

  lemma {:induction false} TextCount(all: seq<Word>, w: Word)
    ensures multiset(Texts(all))[Text(w)] == multiset(all)[w]
    decreases |all|
  {
    hide Text;
    if all == [] {
      assert Texts(all) == [];
    } else {
      TextCount(all[1..], w);
      TextsCons(all[0], all[1..]);
      assert all == [all[0]] + all[1..];
      if Text(all[0]) == Text(w) {
        TextInjective(all[0], w);
      }
    }
  }

  /** A listing of codes in order is a listing of their texts. */
  lemma ListsTexts(lines: seq<Line>, ws: seq<Word>, all: seq<Word>)
    requires |lines| == |ws| && InOrder(ws) && forall w :: w in ws <==> w in all
    requires forall i :: 0 <= i < |ws| ==> lines[i] == (Text(ws[i]), multiset(all)[ws[i]])
    ensures Lists(lines, Texts(all))
  {
    hide Text, Before, Earlier;
    forall i, j | 0 <= i < j < |lines| ensures Before(lines[i].0, lines[j].0) {
      EarlierText(ws[i], ws[j]);
    }
    forall i | 0 <= i < |lines| ensures lines[i].1 == multiset(Texts(all))[lines[i].0] {
      TextCount(all, ws[i]);
    }
    ListsAll(lines, ws, all);
  }

  lemma ListsAll(lines: seq<Line>, ws: seq<Word>, all: seq<Word>)
    requires |lines| == |ws| && forall w :: w in ws <==> w in all
    requires forall i :: 0 <= i < |ws| ==> lines[i].0 == Text(ws[i])
    ensures forall s :: s in Texts(all) <==> exists i :: 0 <= i < |lines| && lines[i].0 == s
  {
    hide Text;
    forall s | s in Texts(all) ensures exists i :: 0 <= i < |lines| && lines[i].0 == s {
      var j :| 0 <= j < |all| && Texts(all)[j] == s;
      assert all[j] in ws;
      var i :| 0 <= i < |ws| && ws[i] == all[j];
      assert lines[i].0 == s;
    }
    forall i | 0 <= i < |lines| ensures lines[i].0 in Texts(all) {
      assert ws[i] in all;
      var j :| 0 <= j < |all| && all[j] == ws[i];
      assert Texts(all)[j] == lines[i].0;
    }
  }

  /** Every prefix leads to a word that was read, and starts with a letter. */
  predicate OnTheWay(vs: set<Word>, all: seq<Word>) {
    forall v :: v in vs && v != [] ==> v[0] != HYPHEN && LeadsTo(v, all)
  }

  predicate LeadsTo(v: Word, all: seq<Word>) { exists i :: 0 <= i < |all| && v <= all[i] }

  /** The sum of the printed counts. */
  function Sum(lines: seq<Line>): nat {
    if lines == [] then 0 else Sum(lines[..|lines| - 1]) + lines[|lines| - 1].1
  }

  lemma OrderJoin(a: seq<Word>, b: seq<Word>)
    requires InOrder(a) && InOrder(b) && forall v, w :: v in a && w in b ==> Earlier(v, w)
    ensures InOrder(a + b)
  {
    hide Earlier;
    forall i, j | 0 <= i < j < |a + b| ensures Earlier((a + b)[i], (a + b)[j]) {
      assert i < |a| ==> a[i] in a;
      assert j >= |a| ==> b[j - |a|] in b;
    }
  }

  /** What is at w or below an earlier child comes before what is below a later one. */
  lemma ChildOrder(v: Word, u: Word, w: Word, i: Symbol)
    requires w <= v && (v == w || v[|w|] < i) && w + [i] <= u
    ensures Earlier(v, u)
  {
    GoesOn(u, w, i);
    var k := |w|;
    assert v[..k] == w == u[..k];
  }

  /** Going on below w with i is being below that child. */
  lemma GoesOn(v: Word, w: Word, i: Symbol)
    ensures w + [i] <= v <==> w <= v && v != w && v[|w|] == i
  {
    var p := w + [i];
    assert forall k :: 0 <= k < |w| ==> p[k] == w[k];
    assert p[|w|] == i;
    if w <= v && |v| > |w| && v[|w|] == i {
      assert forall k :: 0 <= k < |p| ==> p[k] == v[k];
      assert p <= v;
    }
    if p <= v {
      assert forall k :: 0 <= k < |w| ==> w[k] == v[k];
      assert v[|w|] == p[|w|];
      assert w <= v;
    }
    if w <= v && |v| == |w| {
      assert v == w;
    }
  }

  lemma NoText()
    ensures Text([]) == []
  {
  }

  lemma {:induction false} NoEmptyWord(t: string)
    ensures [] !in Words(t)
    decreases |t|
  {
    if t != "" {
      if IsLetter(t[0]) {
        NoEmptyWord(AfterRest(t[1..]));
      } else {
        NoEmptyWord(t[1..]);
      }
    }
  }

  lemma ShortWay(vs: set<Word>, all: seq<Word>)
    requires OnTheWay(vs, all) && forall w :: w in all ==> |w| < 1024
    ensures forall v :: v in vs ==> |v| < 1024
  {
    forall v | v in vs ensures |v| < 1024 {
      if v != [] {
        assert LeadsTo(v, all);
      }
    }
  }

  /** Distinct words that cover a multiset: their multiplicities add up to its size. */
  lemma {:induction false} SumIs(lines: seq<Line>, ws: seq<Word>, all: seq<Word>)
    requires |lines| == |ws| && Distinct(ws) && forall w :: w in all ==> w in ws
    requires forall i :: 0 <= i < |ws| ==> lines[i].1 == multiset(all)[ws[i]]
    ensures Sum(lines) == |all|
  {
    SumCovers(lines, ws, multiset(all));
  }

  lemma {:induction false} SumCovers(lines: seq<Line>, ws: seq<Word>, m: multiset<Word>)
    requires |lines| == |ws| && Distinct(ws) && forall w :: w in m ==> w in ws
    requires forall i :: 0 <= i < |ws| ==> lines[i].1 == m[ws[i]]
    ensures Sum(lines) == |m|
    decreases |ws|
  {
    if ws == [] {
      assert m == multiset{};
    } else {
      var last := ws[|ws| - 1];
      var m' := m[last := 0];
      var front := ws[..|ws| - 1];
      forall w | w in m' ensures w in front {
        assert w in m && w != last;
        var i :| 0 <= i < |ws| && ws[i] == w;
        assert front[i] == w;
      }
      SumCovers(lines[..|lines| - 1], front, m');
      Without(m, last);
    }
  }

  lemma Without(m: multiset<Word>, w: Word)
    ensures |m[w := 0]| + m[w] == |m|
  {
  }

  lemma OutIsEmpty(m: Config, c: char)
    requires m.state.OUT? ==> m.cur == []
    ensures Step(m, c).state.OUT? ==> Step(m, c).cur == []
  {
  }

  /** The open word grows. */
  lemma WayGrows(vs: set<Word>, done: seq<Word>, cur: Word, x: Symbol, open: bool)
    requires OnTheWay(vs, if open then done + [cur] else done)
    requires if cur == [] then x != HYPHEN else cur[0] != HYPHEN
    ensures OnTheWay(vs + {cur + [x]}, done + [cur + [x]])
  {
    var all, all' := if open then done + [cur] else done, done + [cur + [x]];
    assert all'[|done|] == cur + [x];
    forall v | v in vs + {cur + [x]} && v != [] ensures v[0] != HYPHEN && LeadsTo(v, all') {
      if v in vs {
        assert LeadsTo(v, all);
        var i :| 0 <= i < |all| && v <= all[i];
        assert v <= all'[i];
      } else {
        assert v <= all'[|done|];
      }
    }
  }

  lemma SameChild(v: Word, d: Symbol, w: Word, c: Symbol)
    ensures v + [d] == w + [c] <==> v == w && d == c
  {
    if v + [d] == w + [c] {
      assert (v + [d])[..|v|] == v && (w + [c])[..|w|] == w;
      assert (v + [d])[|v|] == d && (w + [c])[|w|] == c;
    }
  }

  // ---- the trie on the heap ----

  class TrieNode {
    var count: nat
    const children: array<TrieNode?>

    /** `create_node`. */
    constructor ()
      ensures count == 0 && children.Length == 27 && fresh(children)
      ensures forall i :: 0 <= i < 27 ==> children[i] == null
    {
      count := 0;
      children := new TrieNode?[27](_ => null);
    }
  }

  class Trie {
    const root: TrieNode
    /** The node of each word prefix that was read. */
    ghost var nodes: map<Word, TrieNode>
    ghost var repr: set<object>

    /** Different words have different nodes and child arrays, all in repr. */
    ghost predicate Apart()
      reads this
    {
      && (forall w :: w in nodes ==> nodes[w] in repr && nodes[w].children in repr && nodes[w].children.Length == 27)
      && (forall v, w :: v in nodes && w in nodes && v != w ==>
            nodes[v] != nodes[w] && nodes[v].children != nodes[w].children)
    }

    /** Child c of the node of w is the node of w followed by c. */
    ghost predicate LinkedAt(w: Word)
      requires Apart() && w in nodes
      reads this, repr
    {
      forall c: Symbol :: nodes[w].children[c] == if w + [c] in nodes then nodes[w + [c]] else null
    }

    ghost predicate Linked()
      requires Apart()
      reads this, repr
    {
      forall w :: w in nodes ==> LinkedAt(w)
    }

    ghost predicate Valid()
      reads this, repr
    {
      && [] in nodes && nodes[[]] == root && Apart() && Linked()
      && (forall w :: w in nodes && w != [] ==> w[..|w| - 1] in nodes)
    }

    /** Every node counts how often its word was completed. */
    ghost predicate Counts(done: seq<Word>)
      requires Apart()
      reads this, repr
    {
      && (forall w :: w in nodes ==> nodes[w].count == multiset(done)[w])
      && (forall w :: w in done ==> w in nodes)
    }

    constructor ()
      ensures Valid() && Counts([]) && nodes == map[[] := root] && fresh(repr)
    {
      root := new TrieNode();
      new;
      nodes := map[[] := root];
      repr := {root, root.children};
    }

    /** The step to a child, which is made if it is missing. */
    method Child(node: TrieNode, c: Symbol, ghost w: Word, ghost done: seq<Word>) returns (child: TrieNode)
      requires Valid() && Counts(done) && w in nodes && nodes[w] == node
      modifies `nodes, `repr, node.children
      ensures Valid() && Counts(done) && w + [c] in nodes && nodes[w + [c]] == child
      ensures fresh(repr - old(repr)) && nodes.Keys == old(nodes.Keys) + {w + [c]}
    {
      hide Valid, Apart, Linked, LinkedAt, Counts;
      ChildAt(w, c);
      if node.children[c] == null {
        Grow(node, c, w, done);
        ChildAt(w, c);
      } else {
        assert nodes.Keys == nodes.Keys + {w + [c]};
      }
      child := node.children[c];
    }

    lemma ChildAt(w: Word, c: Symbol)
      requires Valid() && w in nodes
      ensures nodes[w].children.Length == 27 && nodes[w].children in repr && nodes[w] in repr
      ensures nodes[w].children[c] == if w + [c] in nodes then nodes[w + [c]] else null
    {
      assert LinkedAt(w);
    }

    method Grow(node: TrieNode, c: Symbol, ghost w: Word, ghost done: seq<Word>)
      requires Valid() && Counts(done) && w in nodes && nodes[w] == node && w + [c] !in nodes
      modifies `nodes, `repr, node.children
      ensures Valid() && Counts(done) && w + [c] in nodes && w in nodes && nodes[w] == node
      ensures fresh(repr - old(repr)) && nodes.Keys == old(nodes.Keys) + {w + [c]}
    {
      hide Linked, LinkedAt;
      ghost var word := w + [c];
      NoGrandchildren(word);
      NeverDone(word, done);
      var newNode := new TrieNode();
      LinkNew(node, newNode, c, w);
      assert Counts(done);
      assert word[..|word| - 1] == w;
    }

    lemma NeverDone(word: Word, done: seq<Word>)
      requires Apart() && Counts(done) && word !in nodes
      ensures multiset(done)[word] == 0
    {
    }

    method LinkNew(node: TrieNode, newNode: TrieNode, c: Symbol, ghost w: Word)
      requires Apart() && Linked() && w in nodes && nodes[w] == node
      requires w + [c] !in nodes && forall d: Symbol :: w + [c] + [d] !in nodes
      requires newNode !in repr && newNode.children !in repr && newNode.children.Length == 27
      requires forall i :: 0 <= i < 27 ==> newNode.children[i] == null
      modifies `nodes, `repr, node.children
      ensures Apart() && Linked() && nodes == old(nodes)[w + [c] := newNode]
      ensures repr == old(repr) + {newNode, newNode.children}
    {
      ghost var was := nodes;
      node.children[c] := newNode;
      nodes := nodes[w + [c] := newNode];
      repr := repr + {newNode, newNode.children};
      assert Apart();
      forall v | v in nodes ensures LinkedAt(v) {
        assert v in was ==> old(LinkedAt(v));
        forall d: Symbol ensures nodes[v].children[d] == if v + [d] in nodes then nodes[v + [d]] else null {
          SameChild(v, d, w, c);
        }
      }
    }

    lemma NoGrandchildren(word: Word)
      requires Valid() && word !in nodes
      ensures forall d: Symbol :: word + [d] !in nodes
    {
      forall d: Symbol ensures word + [d] !in nodes {
        assert (word + [d])[..|word + [d]| - 1] == word;
      }
    }

    // ---- counting ----

    ghost predicate Covered(all: seq<Word>)
      reads this
    {
      OnTheWay(nodes.Keys, all)
    }

    /** Completing the word of a node. */
    method Complete(node: TrieNode, ghost w: Word, ghost done: seq<Word>)
      requires Valid() && Counts(done) && w in nodes && nodes[w] == node
      modifies node`count
      ensures Valid() && Counts(done + [w])
    {
      node.count := node.count + 1;
      assert forall v :: v in nodes ==> LinkedAt(v);
    }

    /** The trie agrees with the machine. */
    ghost predicate Agrees(m: Config, temp: TrieNode?, wordNum: nat)
      reads this, repr
    {
      && Valid() && Counts(m.done) && Covered(if m.state.OUT? then m.done else m.done + [m.cur])
      && wordNum == |m.done| + (if m.state.OUT? then 0 else 1)
      && (if m.state.OUT? then temp == null
          else m.cur != [] && m.cur[0] != HYPHEN && m.cur in nodes && temp == nodes[m.cur])
    }

    /** The open word grows by one symbol. */
    method Extend(node: TrieNode, x: Symbol, ghost m: Config, ghost m': Config, wordNum: nat) returns (temp: TrieNode)
      requires Agrees(m, if m.state.OUT? then null else node, wordNum)
      requires m.state.OUT? ==> m.cur == [] && node == root && x != HYPHEN
      requires m'.cur == m.cur + [x] && m'.done == m.done && !m'.state.OUT?
      modifies this, repr
      ensures Agrees(m', temp, wordNum + (if m.state.OUT? then 1 else 0)) && fresh(repr - old(repr))
    {
      hide Linked, Apart, Counts, OnTheWay, Valid;
      WayGrows(nodes.Keys, m.done, m.cur, x, !m.state.OUT?);
      RootIs();
      temp := Child(node, x, m.cur, m.done);
    }

    lemma RootIs()
      requires Valid()
      ensures [] in nodes && nodes[[]] == root
      ensures forall w :: w in nodes ==> nodes[w].children in repr
    {
    }

    /** The open word is over. */
    method EndWord(node: TrieNode, ghost m: Config, wordNum: nat)
      requires Agrees(m, node, wordNum) && !m.state.OUT?
      modifies node`count
      ensures Agrees(Close(m), null, wordNum)
    {
      hide Linked, Apart;
      InRepr(m.cur);
      Complete(node, m.cur, m.done);
    }

    lemma InRepr(w: Word)
      requires Valid() && w in nodes
      ensures nodes[w] in repr && nodes[w].children in repr && nodes[w].children.Length == 27
    {
    }

    lemma InOpen(m: Config, temp: TrieNode?, wordNum: nat)
      requires Agrees(m, temp, wordNum)
      ensures temp != null <==> !m.state.OUT?
      ensures temp != null ==> temp in repr
    {
    }

    /** One character of `count_word`. */
    method Read(state0: State, temp0: TrieNode?, wordNum0: nat, c: char, ghost m: Config)
      returns (state: State, temp: TrieNode?, wordNum: nat)
      requires state0 == m.state && Agrees(m, temp0, wordNum0) && (m.state.OUT? ==> m.cur == [])
      modifies this, repr
      ensures state == Step(m, c).state && Agrees(Step(m, c), temp, wordNum) && fresh(repr - old(repr))
    {
      hide Valid, Covered, Counts;
      state, temp, wordNum := state0, temp0, wordNum0;
      InOpen(m, temp, wordNum);
      match state
      case OUT =>
        if IsLetter(c) {
          state := IN;
          wordNum := wordNum + 1;
          temp := Extend(root, Code(c), m, Step(m, c), wordNum0);
        }
      case IN =>
        if IsLetter(c) {
          temp := Extend(temp, Code(c), m, Step(m, c), wordNum);
        } else if c == '-' {
          state := TEMP;
        } else {
          EndWord(temp, m, wordNum);
          temp := null;
          state := OUT;
        }
      case TEMP =>
        if IsLetter(c) {
          ghost var half := m.(cur := m.cur + [HYPHEN]);
          temp := Extend(temp, HYPHEN, m, half, wordNum);
          temp := Extend(temp, Code(c), half, Step(m, c), wordNum);
          state := IN;
        } else if c == '\n' {
          state := TEMP1;
        } else {
          EndWord(temp, m, wordNum);
          temp := null;
          state := OUT;
        }
      case TEMP1 =>
        if IsLetter(c) {
          temp := Extend(temp, Code(c), m, Step(m, c), wordNum);
          state := IN;
        } else {
          EndWord(temp, m, wordNum);
          temp := null;
          state := OUT;
        }
    }

    /** `count_word`, with `temp_node` starting as null. */
    method CountWord(text: string) returns (wordNum: nat)
      requires Valid() && Counts([]) && Covered([])
      modifies this, repr
      ensures Valid() && Counts(Words(text)) && Covered(Words(text)) && wordNum == |Words(text)|
      ensures fresh(repr - old(repr))
    {
      hide Valid, Covered, Counts, Step, Words;
      var state := OUT;
      wordNum := 0;
      var temp: TrieNode? := null;
      ghost var m := Start();
      var i := 0;
      while i < |text|
        invariant 0 <= i <= |text| && m == Steps(Start(), text[..i]) && state == m.state
        invariant Agrees(m, temp, wordNum) && (m.state.OUT? ==> m.cur == []) && fresh(repr - old(repr))
      {
        assert text[..i + 1] == text[..i] + [text[i]];
        StepsLast(Start(), text[..i], text[i]);
        OutIsEmpty(m, text[i]);
        state, temp, wordNum := Read(state, temp, wordNum, text[i], m);
        m := Step(m, text[i]);
        i := i + 1;
      }
      assert text[..i] == text;
      MachineFindsWords(text);
      InOpen(m, temp, wordNum);
      if temp != null {
        EndWord(temp, m, wordNum);
      }
    }

    // ---- printing ----

    /** The node of v was completed and lies at or below w. */
    ghost predicate Below(v: Word, w: Word)
      requires Apart()
      reads this, repr
    {
      v in nodes && w <= v && nodes[v].count > 0
    }

    /** The lines show exactly these words, each with its node's count. */
    ghost predicate Shows(lines: seq<Line>, ws: seq<Word>)
      requires Apart()
      reads this, repr
    {
      && |lines| == |ws| && InOrder(ws)
      && forall i :: 0 <= i < |ws| ==> ws[i] in nodes && lines[i] == (Text(ws[i]), nodes[ws[i]].count)
    }

    /** The words shown so far: w itself and everything below its first i children. */
    ghost predicate Through(ws: seq<Word>, w: Word, i: nat)
      requires Apart()
      reads this, repr
    {
      && (forall v :: v in ws ==> Below(v, w) && (v == w || v[|w|] < i))
      && (forall v :: Below(v, w) && (v == w || v[|w|] < i) ==> v in ws)
    }

    /** Words in the buffer stay below its size. */
    ghost predicate Short()
      reads this
    {
      forall v :: v in nodes ==> |v| < 1024
    }

    /** `traverse`: the node's own line, then its children from a to z and the hyphen. */
    method Traverse(node: TrieNode, word: array<char>, depth: nat, ghost w: Word)
      returns (lines: seq<Line>, ghost ws: seq<Word>)
      requires Valid() && Short() && w in nodes && nodes[w] == node && depth == |w|
      requires word.Length == 1024 && word !in repr && word[..depth] == Text(w)
      modifies word
      ensures word[..depth] == Text(w) && Shows(lines, ws) && Through(ws, w, 27)
      decreases 1024 - depth, 1
    {
      hide Valid, Linked, LinkedAt, Text, Shows, Through, Apart;
      StartLines(w);
      lines, ws := [], [];
      if node.count > 0 {
        word[depth] := '\0';
        assert word[..depth] == old(word[..depth]);
        lines := [(word[..depth], node.count)];
        ws := [w];
      }
      var i := 0;
      while i < 27
        invariant 0 <= i <= 27 && Valid() && Apart() && word[..depth] == Text(w)
        invariant Shows(lines, ws) && Through(ws, w, i)
      {
        ChildAt(w, i);
        if node.children[i] != null {
          lines, ws := VisitChild(node.children[i], i, word, depth, w, lines, ws);
        } else {
          Skip(ws, w, i);
        }
        i := i + 1;
      }
    }

    /** The letter goes into the buffer and the child's lines follow. */
    method VisitChild(child: TrieNode, i: Symbol, word: array<char>, depth: nat, ghost w: Word,
                      lines: seq<Line>, ghost ws: seq<Word>)
      returns (lines': seq<Line>, ghost ws': seq<Word>)
      requires Valid() && Short() && w + [i] in nodes && nodes[w + [i]] == child && depth == |w|
      requires word.Length == 1024 && word !in repr && word[..depth] == Text(w)
      requires Apart() && Shows(lines, ws) && Through(ws, w, i)
      modifies word
      ensures word[..depth] == Text(w) && Shows(lines', ws') && Through(ws', w, i + 1)
      decreases 1024 - depth, 0
    {
      hide Valid, Linked, LinkedAt, Text, Shows, Through, Apart;
      assert |w + [i]| < 1024;
      word[depth] := Letter(i);
      TextLast(w, i);
      assert word[..depth + 1] == word[..depth] + [Letter(i)];
      assert word[..depth] == old(word[..depth]);
      var more;
      ghost var vs;
      more, vs := Traverse(child, word, depth + 1, w + [i]);
      assert word[..depth] == word[..depth + 1][..depth];
      assert (Text(w) + [Letter(i)])[..depth] == Text(w);
      Join(lines, ws, more, vs, w, i);
      lines', ws' := lines + more, ws + vs;
    }

    lemma StartLines(w: Word)
      requires Valid() && w in nodes
      ensures Apart()
      ensures nodes[w].count > 0 ==> Shows([(Text(w), nodes[w].count)], [w]) && Through([w], w, 0)
      ensures nodes[w].count == 0 ==> Shows([], []) && Through([], w, 0)
    {
      hide Linked, Apart, Text;
      assert forall v :: Below(v, w) && |v| == |w| ==> v == w;
      assert forall v :: Below(v, w) && v != w ==> |v| > |w| && v[|w|] >= 0;
    }

    lemma Join(lines: seq<Line>, ws: seq<Word>, more: seq<Line>, vs: seq<Word>, w: Word, i: Symbol)
      requires Apart() && Shows(lines, ws) && Through(ws, w, i) && Shows(more, vs) && Through(vs, w + [i], 27)
      ensures Shows(lines + more, ws + vs) && Through(ws + vs, w, i + 1)
    {
      hide Apart, Earlier;
      forall v, u | v in ws && u in vs ensures Earlier(v, u) {
        assert Below(v, w) && Below(u, w + [i]);
        ChildOrder(v, u, w, i);
      }
      OrderJoin(ws, vs);
      ThroughJoin(ws, vs, w, i);
    }

    lemma ThroughJoin(ws: seq<Word>, vs: seq<Word>, w: Word, i: Symbol)
      requires Apart() && Through(ws, w, i) && Through(vs, w + [i], 27)
      ensures Through(ws + vs, w, i + 1)
    {
      hide Apart;
      forall v | v in ws + vs ensures Below(v, w) && (v == w || v[|w|] < i + 1) {
        if v in vs {
          assert Below(v, w + [i]);
          GoesOn(v, w, i);
        }
      }
      forall v | Below(v, w) && (v == w || v[|w|] < i + 1) ensures v in ws + vs {
        if v != w && v[|w|] == i {
          GoesOn(v, w, i);
          assert Below(v, w + [i]);
        }
      }
    }

    lemma Skip(ws: seq<Word>, w: Word, i: Symbol)
      requires Valid() && Through(ws, w, i) && w + [i] !in nodes
      ensures Through(ws, w, i + 1)
    {
      hide Linked, Apart;
      forall v | Below(v, w) && v != w ensures v[|w|] != i {
        if v[|w|] == i {
          GoesOn(v, w, i);
          PrefixIn(v, w + [i]);
        }
      }
    }

    lemma PrefixIn(v: Word, w: Word)
      requires Valid() && v in nodes && w <= v
      ensures w in nodes
      decreases |v|
    {
      hide Linked, Apart;
      if |w| < |v| {
        assert w <= v[..|v| - 1];
        PrefixIn(v[..|v| - 1], w);
      } else {
        assert v == w;
      }
    }

    /** `print_result`: the words under each first letter. */
    method PrintResult() returns (lines: seq<Line>, ghost ws: seq<Word>)
      requires Valid() && Short() && (forall v :: v in nodes && v != [] ==> v[0] != HYPHEN) && root.count == 0
      ensures Apart() && Shows(lines, ws) && forall v :: v in ws <==> v in nodes && nodes[v].count > 0
    {
      hide Valid, Linked, LinkedAt, Text, Shows, Through, Apart;
      RootIs();
      var buffer := new char[1024];
      StartLines([]);
      NoText();
      lines, ws := [], [];
      for i := 0 to 26
        invariant Valid() && Apart() && Shows(lines, ws) && Through(ws, [], i)
      {
        ChildAt([], i);
        if root.children[i] != null {
          lines, ws := VisitChild(root.children[i], i, buffer, 0, [], lines, ws);
        } else {
          Skip(ws, [], i);
        }
      }
      AllShown(ws);
    }

    lemma AllShown(ws: seq<Word>)
      requires Valid() && Apart() && Through(ws, [], 26) && nodes[[]].count == 0
      requires forall v :: v in nodes && v != [] ==> v[0] != HYPHEN
      ensures forall v :: v in ws <==> v in nodes && nodes[v].count > 0
    {
      forall v | v in nodes && nodes[v].count > 0 ensures v in ws {
        assert Below(v, []);
      }
      assert forall v :: v in ws ==> Below(v, []);
    }

    /** Reading a text and printing: the listing of its words, whose counts add up to their
        number. */
    method Report(text: string) returns (wordNum: nat, lines: seq<Line>)
      requires Valid() && nodes.Keys == {[]} && root.count == 0
      requires forall s :: s in TextWords(text) ==> |s| < 1024
      modifies this, repr
      ensures wordNum == |TextWords(text)| == Sum(lines)
      ensures Lists(lines, TextWords(text))
    {
      hide Linked, LinkedAt, Text, Words, Lists;
      assert Counts([]) && Covered([]);
      wordNum := CountWord(text);
      NoEmptyWord(text);
      WordsAreTextWords(text);
      ShortTexts(Words(text), TextWords(text));
      ShortWay(nodes.Keys, Words(text));
      ghost var ws;
      lines, ws := PrintResult();
      InOrderDistinct(ws);
      SumIs(lines, ws, Words(text));
      ListsTexts(lines, ws, Words(text));
    }

    lemma ShortTexts(ws: seq<Word>, ss: seq<string>)
      requires Texts(ws) == ss && forall s :: s in ss ==> |s| < 1024
      ensures forall w :: w in ws ==> |w| < 1024
    {
      forall w | w in ws ensures |w| < 1024 {
        var i :| 0 <= i < |ws| && ws[i] == w;
        assert ss[i] in ss;
      }
    }
  }
}
