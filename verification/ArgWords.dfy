/**
 * chopup_args: cutting a command line into words in place. Words are separated
 * by white space; a word that opens with a quote runs to the next such quote.
 */
module ArgWords {
  import opened CStrings
  import opened Options
  import opened Sequences

  predicate IsWhite(c: char) {
    c == ' ' || c == '\t' || c == '\n'
  }

  predicate IsQuote(c: char) {
    c == '\'' || c == '"'
  }

  // ----- the words of a line -----

  /** How many characters at the front satisfy IsWhite, or do not. */
  function WhiteSpan(s: string): (k: nat)
    ensures k <= |s| && (k < |s| ==> !IsWhite(s[k]))
    ensures forall i :: 0 <= i < k ==> IsWhite(s[i])
  {
    if s != "" && IsWhite(s[0]) then 1 + WhiteSpan(s[1..]) else 0
  }

  function PlainSpan(s: string): (k: nat)
    ensures k <= |s| && (k < |s| ==> IsWhite(s[k]))
    ensures forall i :: 0 <= i < k ==> !IsWhite(s[i])
  {
    if s != "" && !IsWhite(s[0]) then 1 + PlainSpan(s[1..]) else 0
  }

  /** A word, where it starts and where the scan goes on. */
  datatype Word = Word(text: string, start: nat, next: nat)

  /** The first word of a text that begins with one; None when its quote is not closed. */
  function FirstWord(s: string): (w: Option<Word>)
    requires s != "" && !IsWhite(s[0])
    ensures w.Some? ==>
              && w.value.start + |w.value.text| <= w.value.next <= |s| && 0 < w.value.next
              && s[w.value.start..w.value.start + |w.value.text|] == w.value.text
              && (w.value.start + |w.value.text| < |s| ==> w.value.next == w.value.start + |w.value.text| + 1)
  {
    if IsQuote(s[0]) then
      var k := IndexOf(s[1..], s[0]);
      if k == |s| - 1 then None else Some(Word(s[1..][..k], 1, k + 2))
    else
      var k := PlainSpan(s);
      Some(Word(s[..k], 0, if k < |s| then k + 1 else k))
  }

  /** All words of a text; None when some quoted word is not closed. */
  function Words(s: string): Option<seq<string>>
    decreases |s|
  {
    var t := s[WhiteSpan(s)..];
    if t == "" then Some([]) else
      match FirstWord(t)
      case None => None
      case Some(w) =>
        match Words(t[w.next..])
        case None => None
        case Some(more) => Some([w.text] + more)
  }

  // ----- quoting and joining -----

  datatype Quoting = Bare | Single | Double

  datatype Arg = Arg(text: string, quoting: Quoting) {
    /** An argument that its quoting can carry. */
    predicate Printable() {
      match quoting
      case Bare =>
        && text != "" && text[0] != '\'' && text[0] != '"'
        && ' ' !in text && '\t' !in text && '\n' !in text
      case Single => '\'' !in text
      case Double => '"' !in text
    }

    function Print(): string {
      match quoting
      case Bare => text
      case Single => "'" + text + "'"
      case Double => "\"" + text + "\""
    }
  }

  /** Blanks, tabs and newlines. */
  predicate IsGap(s: string) {
    forall i :: 0 <= i < |s| ==> s[i] == ' ' || s[i] == '\t' || s[i] == '\n'
  }

  /** The arguments with a gap before each and one at the end. */
  function Line(gaps: seq<string>, args: seq<Arg>): string
    requires |gaps| == |args| + 1
  {
    if args == [] then gaps[0] else gaps[0] + (args[0].Print() + Line(gaps[1..], args[1..]))
  }

  /** Any gaps will do, but one between two arguments may be empty only after a quoted one. */
  ghost predicate Separated(gaps: seq<string>, args: seq<Arg>) {
    && |gaps| == |args| + 1
    && (forall i :: 0 <= i < |gaps| ==> IsGap(gaps[i]))
    && (forall i :: 0 < i < |args| && args[i - 1].quoting.Bare? ==> gaps[i] != "")
  }

  function Texts(args: seq<Arg>): seq<string> {
    if args == [] then [] else [args[0].text] + Texts(args[1..])
  }

  lemma {:induction false} WhiteSpanIs(s: string, k: nat)
    requires k <= |s| && (k < |s| ==> !IsWhite(s[k]))
    requires forall i :: 0 <= i < k ==> IsWhite(s[i])
    ensures WhiteSpan(s) == k
  {
    if k > 0 {
      WhiteSpanIs(s[1..], k - 1);
    }
  }

  lemma {:induction false} PlainSpanIs(s: string, k: nat)
    requires k <= |s| && (k < |s| ==> IsWhite(s[k]))
    requires forall i :: 0 <= i < k ==> !IsWhite(s[i])
    ensures PlainSpan(s) == k
  {
    if k > 0 {
      PlainSpanIs(s[1..], k - 1);
    }
  }

  lemma FirstWordOfPrinted(a: Arg, tail: string)
    requires a.Printable() && (a.quoting.Bare? && tail != "" ==> IsWhite(tail[0]))
    ensures var s := a.Print() + tail;
            && s != "" && !IsWhite(s[0])
            && var w := FirstWord(s);
            && w.Some? && w.value.text == a.text
            && s[w.value.next..] == if a.quoting.Bare? && tail != "" then tail[1..] else tail
  {
    hide FirstWord, IsWhite;
    match a.quoting
    case Bare =>
      BareWord(a.text, tail);
    case Single =>
      QuotedWord('\'', a.text, tail);
      assert a.Print() == ['\''] + a.text + ['\''];
    case Double =>
      QuotedWord('"', a.text, tail);
      assert a.Print() == ['"'] + a.text + ['"'];
  }

  lemma BareWord(text: string, tail: string)
    requires Arg(text, Bare).Printable() && (tail != "" ==> IsWhite(tail[0]))
    ensures var s := text + tail;
            && s != "" && !IsWhite(s[0])
            && FirstWord(s) == Some(Word(text, 0, if tail == "" then |text| else |text| + 1))
            && s[FirstWord(s).value.next..] == if tail == "" then "" else tail[1..]
  {
    var s := text + tail;
    PlainSpanIs(s, |text|);
    assert s[..|text|] == text;
  }

  lemma QuotedWord(q: char, text: string, tail: string)
    requires IsQuote(q) && q !in text
    ensures var s := [q] + text + [q] + tail;
            && !IsWhite(s[0])
            && FirstWord(s) == Some(Word(text, 1, |text| + 2))
            && s[|text| + 2..] == tail
  {
    hide IsQuote, IndexOf;
    var s := [q] + text + [q] + tail;
    var rest := s[1..];
    assert rest == text + [q] + tail;
    assert rest[..|text|] == text;
    assert rest[|text|] == q;
    assert forall i :: 0 <= i < |text| ==> rest[i] == text[i];
    IndexOfIs(rest, q, |text|);
    QuoteIsNotWhite(q);
    assert s[0] == q;
  }

  lemma QuoteIsNotWhite(q: char)
    requires IsQuote(q)
    ensures !IsWhite(q)
  {
  }

  lemma {:induction false} WordsSkipsGap(gap: string, s: string)
    requires IsGap(gap)
    ensures Words(gap + s) == Words(s)
    decreases |gap|
  {
    if gap == "" {
      assert gap + s == s;
    } else {
      hide Words;
      var rest := gap[1..] + s;
      assert gap + s == [gap[0]] + rest;
      WordsSkipsWhite(gap[0], rest);
      WordsSkipsGap(gap[1..], s);
    }
  }

  lemma {:induction false} WordsSkipsWhite(c: char, s: string)
    requires c == ' ' || c == '\t' || c == '\n'
    ensures Words([c] + s) == Words(s)
  {
    var k := WhiteSpan(s);
    WhiteSpanIs([c] + s, k + 1);
    assert ([c] + s)[k + 1..] == s[k..];
  }

  /** Words of a text that starts with one. */
  lemma WordsOfWord(s: string)
    requires s != "" && !IsWhite(s[0]) && FirstWord(s).Some?
    ensures var w, more := FirstWord(s).value, Words(s[FirstWord(s).value.next..]);
            Words(s) == if more.None? then None else Some([w.text] + more.value)
  {
    hide FirstWord;
    assert WhiteSpan(s) == 0;
    assert s[0..] == s;
  }

  lemma NoWords()
    ensures Words("") == Some([])
  {
  }

  lemma WordsOfPrinted(a: Arg, tail: string)
    requires a.Printable() && (a.quoting.Bare? && tail != "" ==> IsGap(tail[..1]))
    ensures Words(a.Print() + tail) == Prefixed([a.text], Words(tail))
  {
    hide FirstWord, IsWhite, WhiteSpan, Words, Arg.Print, Arg.Printable;
    var s := a.Print() + tail;
    if a.quoting.Bare? && tail != "" {
      WhiteIs(tail[0]);
      assert tail[..1][0] == tail[0];
      assert [tail[0]] + tail[1..] == tail;
      WordsSkipsWhite(tail[0], tail[1..]);
    }
    FirstWordOfPrinted(a, tail);
    WordsOfWord(s);
  }

  lemma WhiteIs(c: char)
    ensures IsWhite(c) <==> c == ' ' || c == '\t' || c == '\n'
  {
  }

  /** Cutting up inverts quoting and joining, whatever blanks, tabs and newlines are around the arguments. */
  lemma {:induction false} JoinRoundTrip(gaps: seq<string>, args: seq<Arg>)
    requires Separated(gaps, args) && forall i :: 0 <= i < |args| ==> args[i].Printable()
    ensures Words(Line(gaps, args)) == Some(Texts(args))
    decreases |args|
  {
    hide Words, Arg.Print, Arg.Printable, IsGap;
    if args == [] {
      NoWords();
      assert gaps[0] + "" == gaps[0];
      WordsSkipsGap(gaps[0], "");
    } else {
      var tail := Line(gaps[1..], args[1..]);
      assert forall i :: 0 <= i < |gaps| - 1 ==> gaps[1..][i] == gaps[i + 1];
      JoinRoundTrip(gaps[1..], args[1..]);
      LineStarts(gaps[1..], args[1..]);
      WordsOfPrinted(args[0], tail);
      WordsSkipsGap(gaps[0], args[0].Print() + tail);
    }
  }

  /** A line starts with its first gap, unless that is empty. */
  lemma LineStarts(gaps: seq<string>, args: seq<Arg>)
    requires |gaps| == |args| + 1 && IsGap(gaps[0])
    ensures gaps[0] != "" ==> Line(gaps, args) != "" && IsGap(Line(gaps, args)[..1])
    ensures args == [] ==> Line(gaps, args) == gaps[0]
  {
  }

  // ----- in place -----

  /** ARGS: a growing table of words, each a position in the line or null. */
  class Args {
    var count: nat
    var data: array<Option<nat>>

    ghost predicate Valid()
      reads this
    {
      count == 0 || data.Length == count
    }

    constructor ()
      ensures Valid() && count == 0 && fresh(data)
    {
      count := 0;
      data := new Option<nat>[0];
    }

    /** The first lines of chopup_args: a table of at least 20 slots, all null. */
    method Clear()
      requires Valid()
      modifies this, data
      ensures Valid() && count == (if old(count) == 0 then 20 else old(count)) && (data == old(data) || fresh(data))
      ensures forall k :: 0 <= k < count ==> data[k] == None
    {
      if count == 0 {
        count := 20;
        data := new Option<nat>[20];
      }
      var i := 0;
      while i < count
        invariant 0 <= i <= count == data.Length
        invariant data == old(data) || fresh(data)
        invariant count == if old(count) == 0 then 20 else old(count)
        invariant forall k :: 0 <= k < i ==> data[k] == None
      {
        data[i] := None;
        i := i + 1;
      }
    }

    /** Enlarges the table by 20 empty slots. */
    method Grow(num: nat)
      requires Valid() && num == count > 0
      modifies this
      ensures Valid() && count == old(count) + 20 && fresh(data)
      ensures forall k :: 0 <= k < num ==> data[k] == old(data[k])
      ensures data[..num] == old(data[..]) && forall k :: num <= k < count ==> data[k] == None
    {
      var tmp := new Option<nat>[count + 20](_ => None);
      forall k | 0 <= k < num {
        tmp[k] := data[k];
      }
      data, count := tmp, count + 20;
    }
  }

  /** The words found so far: in order, apart, and each ended by a NUL before `end`. */
  ghost predicate Cut(buf: seq<char>, end: nat, slots: seq<Option<nat>>, words: seq<string>)
    requires end <= |buf|
  {
    && |words| <= |slots|
    && (forall k :: 0 <= k < |words| ==>
          slots[k].Some? && HasAt(buf, slots[k].value, words[k]) && slots[k].value + |words[k]| <= end)
    && (forall k :: 0 <= k < |words| - 1 ==> slots[k].value + |words[k]| < slots[k + 1].value)
    && (forall k :: |words| <= k < |slots| ==> slots[k] == None)
  }

  /** Where the rest of the line starts, past the words cut. */
  ghost predicate Rest(buf: seq<char>, p: nat, n: nat, rest: string) {
    p + |rest| == n && HasAt(buf, p, rest)
  }

  method SkipWhite(buf: array<char>, p0: nat, ghost n: nat, ghost rest: string) returns (p: nat)
    requires Rest(buf[..], p0, n, rest)
    ensures p == p0 + WhiteSpan(rest) && Rest(buf[..], p, n, rest[WhiteSpan(rest)..])
  {
    p := p0;
    assert buf[p0] == At(rest, 0);
    while buf[p] != NUL && IsWhite(buf[p])
      invariant p0 <= p <= p0 + |rest| && buf[p] == At(rest, p - p0)
      invariant forall i :: 0 <= i < p - p0 ==> IsWhite(rest[i])
      decreases p0 + |rest| - p
    {
      p := p + 1;
      assert buf[p] == At(rest, p - p0);
    }
    WhiteSpanIs(rest, p - p0);
    RestDrop(buf[..], p0, n, rest, p - p0);
  }

  lemma RestDrop(buf: seq<char>, p: nat, n: nat, rest: string, k: nat)
    requires Rest(buf, p, n, rest) && k <= |rest|
    ensures Rest(buf, p + k, n, rest[k..])
  {
    forall i | 0 <= i <= |rest[k..]| ensures buf[p + k + i] == At(rest[k..], i) {
      assert At(rest, k + i) == buf[p + (k + i)];
    }
    assert IsCString(rest[k..]);
  }

  /** Finds the end of the word at `p` and terminates it there. */
  method CutWord(buf: array<char>, p: nat, ghost n: nat, ghost rest: string) returns (start: nat, next: nat)
    requires Rest(buf[..], p, n, rest) && rest != "" && !IsWhite(rest[0])
    requires FirstWord(rest).Some?
    modifies buf
    ensures var w := FirstWord(rest).value;
            && start == p + w.start && next == p + w.next
            && HasAt(buf[..], start, w.text) && Rest(buf[..], next, n, rest[w.next..])
    ensures forall k :: 0 <= k < p ==> buf[k] == old(buf[k])
  {
    ghost var w := FirstWord(rest).value;
    assert buf[p] == At(rest, 0);
    start := p;
    next := p;
    if IsQuote(buf[p]) {
      var q := buf[p];
      start := p + 1;
      RestDrop(buf[..], p, n, rest, 1);
      var at := StrChr(buf, start, q, rest[1..]);
      assert at != -1;
      next := at;
      CutAt(buf, next, p, n, rest, w);
      next := next + 1;
    } else {
      while buf[next] != NUL && !IsWhite(buf[next])
        invariant p <= next <= p + |rest| && buf[next] == At(rest, next - p)
        invariant forall i :: 0 <= i < next - p ==> !IsWhite(rest[i])
        decreases p + |rest| - next
      {
        next := next + 1;
        assert buf[next] == At(rest, next - p);
      }
      PlainSpanIs(rest, next - p);
      if buf[next] == NUL {
        assert w.next == |rest|;
        assert w.text == rest;
        RestDrop(buf[..], p, n, rest, |rest|);
      } else {
        CutAt(buf, next, p, n, rest, w);
        next := next + 1;
      }
    }
  }

  method CutAt(buf: array<char>, at: nat, ghost p: nat, ghost n: nat, ghost rest: string, ghost w: Word)
    requires Rest(buf[..], p, n, rest)
    requires w.start + |w.text| < |rest| && w.next == w.start + |w.text| + 1
    requires rest[w.start..w.start + |w.text|] == w.text
    requires at == p + w.start + |w.text|
    modifies buf
    ensures HasAt(buf[..], p + w.start, w.text) && Rest(buf[..], p + w.next, n, rest[w.next..])
    ensures forall k :: 0 <= k < p ==> buf[k] == old(buf[k])
  {
    RestDrop(buf[..], p, n, rest, w.next);
    assert forall i :: 0 <= i < |w.text| ==> buf[p + (w.start + i)] == At(rest, w.start + i) == w.text[i];
    buf[at] := NUL;
    forall i | 0 <= i <= |w.text| ensures buf[p + w.start + i] == At(w.text, i) {
      if i < |w.text| {
        assert rest[w.start + i] == w.text[i] && At(rest, w.start + i) == w.text[i];
      }
    }
    assert IsCString(w.text);
  }

  /**
   * chopup_args on a line whose quoted words are all closed: the table lists
   * exactly its words, as disjoint NUL-terminated slices in order, and every
   * slot after them is null.
   */
  method ChopupArgs(arg: Args, buf: array<char>, ghost line: string) returns (argc: nat)
    requires arg.Valid() && HasAt(buf[..], 0, line) && Words(line).Some?
    modifies arg, arg.data, buf
    ensures arg.Valid() && arg.count > 0
    ensures argc == |Words(line).value|
    ensures Cut(buf[..], |line|, arg.data[..], Words(line).value)
  {
    hide FirstWord, WhiteSpan, HasAt, Words, Cut, EndsBefore, Prefixed, IsWhite;
    arg.Clear();
    argc := 0;
    var p: nat := 0;
    ghost var n, rest := |line|, line;
    ghost var words: seq<string> := [];
    PrefixedNone(Words(line));
    NothingCut(buf[..], arg.data[..]);
    LineIsRest(buf[..], line);
    while true
      invariant arg.Valid() && argc <= arg.count && arg.count > 0
      invariant arg.data == old(arg.data) || fresh(arg.data)
      invariant Rest(buf[..], p, n, rest)
      invariant argc == |words| && Cut(buf[..], p, arg.data[..], words)
      invariant rest != "" ==> EndsBefore(arg.data[..], words, p)
      invariant Words(rest).Some? && Words(line) == Prefixed(words, Words(rest))
      decreases |rest|
    {
      ghost var p0 := p;
      p := SkipWhite(buf, p, n, rest);
      WordsStep(rest);
      CutLonger(buf[..], p0, p, arg.data[..], words);
      EndsEarlier(arg.data[..], words, p0, p);
      rest := rest[WhiteSpan(rest)..];
      RestStart(buf[..], p, n, rest);
      if buf[p] == NUL {
        PrefixedAll(words);
        CutLonger(buf[..], p, |line|, arg.data[..], words);
        break;
      }
      ghost var w := FirstWord(rest).value;
      p := AddWord(arg, argc, buf, p, n, rest, words);
      PrefixedNext(words, w.text, Words(rest[w.next..]));
      argc := argc + 1;
      rest := rest[w.next..];
      words := words + [w.text];
    }
  }

  /** Enters the word at `p` in the table, which grows when it is full. */
  method AddWord(arg: Args, argc: nat, buf: array<char>, p: nat, ghost n: nat, ghost rest: string,
                 ghost words: seq<string>)
    returns (next: nat)
    requires arg.Valid() && arg.count > 0 && argc == |words| <= arg.count
    requires Rest(buf[..], p, n, rest) && p <= buf.Length && rest != "" && !IsWhite(rest[0]) && FirstWord(rest).Some?
    requires Cut(buf[..], p, arg.data[..], words) && EndsBefore(arg.data[..], words, p)
    modifies arg, arg.data, buf
    ensures arg.Valid() && argc < arg.count && (arg.data == old(arg.data) || fresh(arg.data))
    ensures var w := FirstWord(rest).value;
            && Rest(buf[..], next, n, rest[w.next..]) && next <= buf.Length
            && Cut(buf[..], next, arg.data[..], words + [w.text])
            && (rest[w.next..] != "" ==> EndsBefore(arg.data[..], words + [w.text], next))
  {
    hide FirstWord, HasAt, Cut, EndsBefore, IsWhite;
    if argc >= arg.count {
      ghost var slots := arg.data[..];
      arg.Grow(argc);
      CutGrown(buf[..], p, slots, arg.data[..], words);
      EndsGrown(slots, arg.data[..], words, p);
    }
    ghost var w, buf0, slots := FirstWord(rest).value, buf[..], arg.data[..];
    var start;
    start, next := CutWord(buf, p, n, rest);
    arg.data[argc] := Some(start);
    assert arg.data[..] == slots[argc := Some(start)];
    RestFits(buf[..], next, n, rest[w.next..]);
    CutAppend(buf0, buf[..], p, next, slots, words, start, w.text);
  }

  lemma RestFits(buf: seq<char>, p: nat, n: nat, rest: string)
    requires Rest(buf, p, n, rest)
    ensures p < |buf|
  {
  }

  ghost predicate EndsBefore(slots: seq<Option<nat>>, words: seq<string>, p: nat)
    requires |words| <= |slots|
  {
    forall k :: 0 <= k < |words| ==> slots[k].Some? && slots[k].value + |words[k]| < p
  }

  lemma LineIsRest(buf: seq<char>, line: string)
    requires HasAt(buf, 0, line)
    ensures Rest(buf, 0, |line|, line) && |line| < |buf|
  {
  }

  lemma RestStart(buf: seq<char>, p: nat, n: nat, rest: string)
    requires Rest(buf, p, n, rest)
    ensures p < |buf| && p <= n && (buf[p] == NUL <==> rest == "")
  {
    assert At(rest, 0) == buf[p];
  }

  /** Words, one word at a time. */
  lemma WordsStep(s: string)
    requires Words(s).Some?
    ensures var t := s[WhiteSpan(s)..];
            && (t == "" ==> Words(s) == Some([]))
            && (t != "" ==>
                  && !IsWhite(t[0]) && FirstWord(t).Some?
                  && Words(t[FirstWord(t).value.next..]).Some?
                  && Words(s) == Some([FirstWord(t).value.text] + Words(t[FirstWord(t).value.next..]).value))
  {
  }

  lemma CutLonger(buf: seq<char>, end: nat, end': nat, slots: seq<Option<nat>>, words: seq<string>)
    requires end <= |buf| && Cut(buf, end, slots, words) && end <= end' <= |buf|
    ensures Cut(buf, end', slots, words)
  {
  }

  lemma EndsEarlier(slots: seq<Option<nat>>, words: seq<string>, p: nat, p': nat)
    requires |words| <= |slots| && p <= p'
    ensures EndsBefore(slots, words, p) ==> EndsBefore(slots, words, p')
  {
  }

  lemma EndsGrown(slots: seq<Option<nat>>, slots': seq<Option<nat>>, words: seq<string>, p: nat)
    requires |words| <= |slots| <= |slots'| && slots'[..|slots|] == slots
    ensures EndsBefore(slots, words, p) ==> EndsBefore(slots', words, p)
  {
    forall k | 0 <= k < |slots| ensures slots'[k] == slots[k] {
      assert slots'[..|slots|][k] == slots[k];
    }
  }

  lemma CutGrown(buf: seq<char>, end: nat, slots: seq<Option<nat>>, slots': seq<Option<nat>>, words: seq<string>)
    requires end <= |buf| && Cut(buf, end, slots, words) && |slots| <= |slots'|
    requires slots'[..|slots|] == slots && forall k :: |slots| <= k < |slots'| ==> slots'[k] == None
    ensures Cut(buf, end, slots', words)
  {
    forall k | 0 <= k < |slots| ensures slots'[k] == slots[k] {
      assert slots'[..|slots|][k] == slots[k];
    }
  }

  lemma CutAppend(a: seq<char>, b: seq<char>, p: nat, next: nat, slots: seq<Option<nat>>, words: seq<string>,
                  start: nat, word: string)
    requires p <= next <= |b| == |a| && p <= |a| && forall k :: 0 <= k < p ==> b[k] == a[k]
    requires Cut(a, p, slots, words) && |words| < |slots|
    requires EndsBefore(slots, words, p)
    requires p <= start && HasAt(b, start, word) && start + |word| <= next
    ensures Cut(b, next, slots[|words| := Some(start)], words + [word])
    ensures start + |word| < next ==> EndsBefore(slots[|words| := Some(start)], words + [word], next)
  {
    var slots', words' := slots[|words| := Some(start)], words + [word];
    forall k | 0 <= k < |words|
      ensures HasAt(b, slots[k].value, words[k])
    {
      WordKept(a, b, p, slots[k].value, words[k]);
    }
  }

  lemma WordKept(a: seq<char>, b: seq<char>, p: nat, at: nat, word: string)
    requires p <= |b| == |a| && forall k :: 0 <= k < p ==> b[k] == a[k]
    requires HasAt(a, at, word) && at + |word| < p
    ensures HasAt(b, at, word)
  {
  }

  lemma NothingCut(buf: seq<char>, slots: seq<Option<nat>>)
    requires forall k :: 0 <= k < |slots| ==> slots[k] == None
    ensures Cut(buf, 0, slots, []) && EndsBefore(slots, [], 0)
  {
  }
}
