/**
 * parse_name: splitting a subject such as /C=UK/O=Org+OU=Unit into attribute
 * types and values, with backslash escapes and multi-valued RDNs.
 */
module SubjectName {
  import opened CStrings
  import opened Options
  import opened Sequences

  /** An attribute; `joined` when a plus sign ties it to the one before. */
  datatype Attr = Attr(kind: string, value: string, joined: bool)

  // ----- the grammar -----

  /** A token: cut short after a backslash, ended by the end of the text, or by a delimiter. */
  datatype Scan = Bad | Ended(text: string) | Stopped(text: string, delim: char, rest: string)

  function Prepend(head: string, scan: Scan): Scan {
    match scan
    case Bad => Bad
    case Ended(text) => Ended(head + text)
    case Stopped(text, delim, rest) => Stopped(head + text, delim, rest)
  }

  function ScanToken(s: string, stops: set<char>): (r: Scan)
    ensures r.Stopped? ==> |r.rest| < |s|
    ensures r.Ended? && s != "" ==> r.text != ""
  {
    if s == "" then Ended("")
    else if s[0] == '\\' then
      if |s| == 1 then Bad else Prepend([s[1]], ScanToken(s[2..], stops))
    else if s[0] in stops then Stopped("", s[0], s[1..])
    else Prepend([s[0]], ScanToken(s[1..], stops))
  }

  const TYPE_STOPS: set<char> := {'='}

  function ValueStops(multirdn: bool): set<char> {
    if multirdn then {'/', '+'} else {'/'}
  }

  /** The attributes of a text whose leading slash is gone; a type must be followed by something. */
  function Attrs(s: string, joined: bool, multirdn: bool): Option<seq<Attr>>
    decreases |s|
  {
    if s == "" then Some([]) else
      match ScanToken(s, TYPE_STOPS)
      case Bad => None
      case Ended(_) => None
      case Stopped(kind, _, rest) =>
        if rest == "" then None else
          match ScanToken(rest, ValueStops(multirdn))
          case Bad => None
          case Ended(value) => Some([Attr(kind, value, joined)])
          case Stopped(value, delim, next) =>
            match Attrs(next, delim == '+', multirdn)
            case None => None
            case Some(more) => Some([Attr(kind, value, joined)] + more)
  }

  function Parse(subject: string, multirdn: bool): Option<seq<Attr>> {
    if subject == "" || subject[0] != '/' then None else Attrs(subject[1..], false, multirdn)
  }

  // ----- printing -----

  predicate IsSpecial(c: char) {
    c == '\\' || c == '=' || c == '/' || c == '+'
  }

  function Escape(s: string): string {
    if s == "" then ""
    else (if IsSpecial(s[0]) then ['\\', s[0]] else [s[0]]) + Escape(s[1..])
  }

  function PrintAttr(a: Attr): string {
    Escape(a.kind) + "=" + Escape(a.value)
  }

  function Print(attrs: seq<Attr>): string {
    if attrs == [] then ""
    else (if attrs[0].joined then "+" else "/") + PrintAttr(attrs[0]) + Print(attrs[1..])
  }

  lemma PrependTwice(a: string, b: string, scan: Scan)
    ensures Prepend(a, Prepend(b, scan)) == Prepend(a + b, scan)
    ensures Prepend("", scan) == scan
  {
    match scan
    case Bad =>
    case Ended(text) => assert a + (b + text) == a + b + text; assert "" + text == text;
    case Stopped(text, _, _) => assert a + (b + text) == a + b + text; assert "" + text == text;
  }

  // ----- all the ways to write a subject -----

  /** A way to write a text: any character may be escaped, and a backslash or a stop must be. */
  ghost predicate Spells(s: string, text: string, stops: set<char>)
    decreases |s|
  {
    if s == "" then text == ""
    else if s[0] == '\\' then |s| >= 2 && text != "" && text[0] == s[1] && Spells(s[2..], text[1..], stops)
    else s[0] !in stops && text != "" && text[0] == s[0] && Spells(s[1..], text[1..], stops)
  }

  lemma {:induction false} ScanSpelled(s: string, text: string, tail: string, stops: set<char>)
    requires Spells(s, text, stops)
    ensures ScanToken(s + tail, stops) == Prepend(text, ScanToken(tail, stops))
    decreases |s|
  {
    if s == "" {
      assert s + tail == tail;
      PrependTwice("", "", ScanToken(tail, stops));
    } else {
      var n := if s[0] == '\\' then 2 else 1;
      assert (s + tail)[n..] == s[n..] + tail;
      ScanSpelled(s[n..], text[1..], tail, stops);
      PrependTwice([text[0]], text[1..], ScanToken(tail, stops));
      assert [text[0]] + text[1..] == text;
    }
  }

  lemma ScanStopped(s: string, text: string, tail: string, stops: set<char>)
    requires Spells(s, text, stops) && '\\' !in stops
    requires tail == "" || tail[0] in stops
    ensures ScanToken(s + tail, stops) == if tail == "" then Ended(text) else Stopped(text, tail[0], tail[1..])
  {
    ScanSpelled(s, text, tail, stops);
    assert text + "" == text;
  }

  /** `p` is how the token a scan finds is written. */
  ghost predicate TokenWritten(s: string, p: string, stops: set<char>) {
    match ScanToken(s, stops)
    case Bad => true
    case Ended(text) => p == s && Spells(p, text, stops)
    case Stopped(text, delim, rest) => s == p + ([delim] + rest) && Spells(p, text, stops) && delim in stops
  }

  lemma {:induction false} ScanIsSpelled(s: string, stops: set<char>) returns (p: string)
    ensures TokenWritten(s, p, stops)
    decreases |s|
  {
    hide TokenWritten;
    if s == "" || s == "\\" || (s[0] != '\\' && s[0] in stops) {
      p := if s == "\\" then s else "";
      TokenAtOnce(s, stops);
    } else {
      var n := if s[0] == '\\' then 2 else 1;
      var q := ScanIsSpelled(s[n..], stops);
      p := s[..n] + q;
      assert s[..n] == if n == 2 then ['\\', s[1]] else [s[0]];
      TokenCons(s[..n], s[n - 1], s[n..], q, stops);
      SplitBack(s, n);
    }
  }

  lemma {:induction false} TokenAtOnce(s: string, stops: set<char>)
    requires s == "" || s == "\\" || (s[0] != '\\' && s[0] in stops)
    ensures TokenWritten(s, if s == "\\" then s else "", stops)
  {
    assert s != "" ==> s == "" + ([s[0]] + s[1..]);
  }

  lemma {:induction false} TokenCons(head: string, c: char, tail: string, q: string, stops: set<char>)
    requires head == ['\\', c] || (head == [c] && c != '\\' && c !in stops)
    requires TokenWritten(tail, q, stops)
    ensures TokenWritten(head + tail, head + q, stops)
  {
    hide Spells;
    SpellsCons(head, q, c, stops);
    assert (head + tail)[|head|..] == tail;
    assert ScanToken(head + tail, stops) == Prepend([c], ScanToken(tail, stops));
    match ScanToken(tail, stops)
    case Stopped(_, delim, rest) => Associate(head, q, [delim] + rest);
    case _ =>
  }

  lemma SpellsCons(head: string, p: string, c: char, stops: set<char>)
    requires head == ['\\', c] || (head == [c] && c != '\\' && c !in stops)
    ensures forall text :: Spells(p, text, stops) ==> Spells(head + p, [c] + text, stops)
  {
    assert (head + p)[|head|..] == p;
    forall text | Spells(p, text, stops) ensures Spells(head + p, [c] + text, stops) {
      assert ([c] + text)[1..] == text;
    }
  }

  lemma {:induction false} EscapeSpells(s: string, stops: set<char>)
    requires forall c :: c in stops ==> IsSpecial(c)
    ensures Spells(Escape(s), s, stops)
  {
    if s != "" {
      var head := if IsSpecial(s[0]) then ['\\', s[0]] else [s[0]];
      EscapeSpells(s[1..], stops);
      SpellsCons(head, Escape(s[1..]), s[0], stops);
      assert [s[0]] + s[1..] == s;
    }
  }

  // Attrs, one case at a time.

  lemma AttrsFail(s: string, joined: bool, multirdn: bool)
    requires s != ""
    requires var kind := ScanToken(s, TYPE_STOPS);
             !kind.Stopped? || kind.rest == "" || ScanToken(kind.rest, ValueStops(multirdn)).Bad?
    ensures Attrs(s, joined, multirdn) == None
  {
  }

  lemma AttrsLast(s: string, joined: bool, multirdn: bool, kind: string, rest: string, value: string)
    requires s != "" && ScanToken(s, TYPE_STOPS) == Stopped(kind, '=', rest) && rest != ""
    requires ScanToken(rest, ValueStops(multirdn)) == Ended(value)
    ensures Attrs(s, joined, multirdn) == Some([Attr(kind, value, joined)])
  {
  }

  lemma AttrsMore(s: string, joined: bool, multirdn: bool, kind: string, rest: string, value: string, delim: char,
                  next: string)
    requires s != "" && ScanToken(s, TYPE_STOPS) == Stopped(kind, '=', rest) && rest != ""
    requires ScanToken(rest, ValueStops(multirdn)) == Stopped(value, delim, next)
    ensures Attrs(s, joined, multirdn) == Prefixed([Attr(kind, value, joined)], Attrs(next, delim == '+', multirdn))
  {
  }

  /** How the type and the value of an attribute are written. */
  datatype Piece = Piece(kind: string, value: string)

  ghost predicate SpellsAttr(p: Piece, a: Attr, multirdn: bool) {
    Spells(p.kind, a.kind, {'='}) && Spells(p.value, a.value, if multirdn then {'/', '+'} else {'/'})
  }

  /** What tokenising makes of a written attribute and what follows it. */
  lemma AttrsOfSpelled(a: Attr, p: Piece, tail: string, multirdn: bool)
    requires SpellsAttr(p, a, multirdn) && (tail == "" || tail[0] in ValueStops(multirdn))
    ensures Attrs(p.kind + ("=" + (p.value + tail)), a.joined, multirdn) ==
              if tail == "" then (if p.value == "" then None else Some([a]))
              else Prefixed([a], Attrs(tail[1..], tail[0] == '+', multirdn))
  {
    hide ScanToken, Attrs, Spells;
    var rest := p.value + tail;
    var s := p.kind + ("=" + rest);
    assert ("=" + rest)[1..] == rest && s != "";
    ScanStopped(p.kind, a.kind, "=" + rest, TYPE_STOPS);
    ScanStopped(p.value, a.value, tail, ValueStops(multirdn));
    if rest == "" {
      AttrsFail(s, a.joined, multirdn);
    } else if tail == "" {
      AttrsLast(s, a.joined, multirdn, a.kind, rest, a.value);
    } else {
      AttrsMore(s, a.joined, multirdn, a.kind, rest, a.value, tail[0], tail[1..]);
    }
  }

  /** A subject: slash or plus, type, equals sign and value of each attribute, and perhaps one more delimiter. */
  function Line(pieces: seq<Piece>, attrs: seq<Attr>, trailing: string): string
    requires |pieces| == |attrs|
  {
    if attrs == [] then trailing else
      (if attrs[0].joined then "+" else "/") +
      (pieces[0].kind + ("=" + (pieces[0].value + Line(pieces[1..], attrs[1..], trailing))))
  }

  ghost predicate TrailingOk(trailing: string, multirdn: bool) {
    trailing == "" || trailing == "/" || (multirdn && trailing == "+")
  }

  /** The attributes may be written so, but for the first delimiter. */
  ghost predicate SpellsAll(pieces: seq<Piece>, attrs: seq<Attr>, trailing: string, multirdn: bool) {
    && |pieces| == |attrs| && TrailingOk(trailing, multirdn)
    && (forall i :: 0 <= i < |attrs| ==> SpellsAttr(pieces[i], attrs[i], multirdn))
    && (forall i :: 0 < i < |attrs| && attrs[i].joined ==> multirdn)
    && (attrs != [] && pieces[|pieces| - 1].value == "" ==> trailing != "")
  }

  lemma {:induction false} AttrsOfLine(pieces: seq<Piece>, attrs: seq<Attr>, trailing: string, multirdn: bool)
    requires SpellsAll(pieces, attrs, trailing, multirdn) && attrs != []
    ensures Attrs(Line(pieces, attrs, trailing)[1..], attrs[0].joined, multirdn) == Some(attrs)
    decreases |attrs|
  {
    hide Attrs, SpellsAttr;
    var a, more, rest := attrs[0], attrs[1..], pieces[1..];
    var tail := Line(rest, more, trailing);
    assert forall i :: 0 <= i < |more| ==> more[i] == attrs[i + 1] && rest[i] == pieces[i + 1];
    assert Line(pieces, attrs, trailing)[1..] == pieces[0].kind + ("=" + (pieces[0].value + tail));
    assert attrs == [a] + more;
    if more != [] {
      AttrsOfLine(rest, more, trailing, multirdn);
      assert tail[0] == if attrs[1].joined then '+' else '/';
    } else {
      assert tail == trailing;
      assert trailing != "" ==> trailing[1..] == "" && (trailing[0] == '+' <==> trailing == "+");
      AttrsEmpty(trailing == "+", multirdn);
      assert more == [] && attrs == [a] && pieces[|pieces| - 1] == pieces[0];
      assert [a] + [] == [a];
    }
    AttrsOfSpelled(a, pieces[0], tail, multirdn);
    assert a.joined == attrs[0].joined;
  }

  lemma {:induction false} LineOfAttrs(s: string, joined: bool, multirdn: bool)
      returns (pieces: seq<Piece>, trailing: string)
    requires s != "" && Attrs(s, joined, multirdn).Some?
    ensures var attrs := Attrs(s, joined, multirdn).value;
            && attrs != [] && attrs[0].joined == joined
            && SpellsAll(pieces, attrs, trailing, multirdn) && |pieces| == |attrs|
            && (if joined then "+" else "/") + s == Line(pieces, attrs, trailing)
    decreases |s|
  {
    hide Spells, ScanToken;
    var attrs := Attrs(s, joined, multirdn).value;
    var kind := ScanIsSpelled(s, TYPE_STOPS);
    var rest := ScanToken(s, TYPE_STOPS).rest;
    var value := ScanIsSpelled(rest, ValueStops(multirdn));
    var p := Piece(kind, value);
    assert s == kind + ("=" + rest);
    match ScanToken(rest, ValueStops(multirdn))
    case Ended(text) =>
      pieces, trailing := [p], "";
      assert Line([], [], "") == "" && rest == value + "";
    case Stopped(text, delim, next) =>
      if next == "" {
        pieces, trailing := [p], [delim];
        assert attrs == [Attr(attrs[0].kind, text, joined)];
        assert Line([], [], trailing) == [delim] + next;
      } else {
        var more;
        more, trailing := LineOfAttrs(next, delim == '+', multirdn);
        pieces := [p] + more;
        LineCons(p, more, attrs[0], attrs[1..], trailing, multirdn);
        assert [attrs[0]] + attrs[1..] == attrs;
      }
  }

  lemma LineCons(p: Piece, more: seq<Piece>, a: Attr, attrs: seq<Attr>, trailing: string, multirdn: bool)
    requires SpellsAttr(p, a, multirdn) && SpellsAll(more, attrs, trailing, multirdn)
    requires attrs != [] && (attrs[0].joined ==> multirdn)
    ensures SpellsAll([p] + more, [a] + attrs, trailing, multirdn)
    ensures Line([p] + more, [a] + attrs, trailing) ==
              (if a.joined then "+" else "/") + (p.kind + ("=" + (p.value + Line(more, attrs, trailing))))
  {
    hide SpellsAttr;
    var ps, all := [p] + more, [a] + attrs;
    assert ps[1..] == more && all[1..] == attrs;
    assert forall i :: 1 <= i < |all| ==> all[i] == attrs[i - 1] && ps[i] == more[i - 1];
  }

  /** A subject is written so, with a slash before its first attribute. */
  ghost predicate SubjectSpells(subject: string, attrs: seq<Attr>, pieces: seq<Piece>, trailing: string,
                                multirdn: bool) {
    && SpellsAll(pieces, attrs, trailing, multirdn)
    && (attrs == [] ==> trailing == "/")
    && (attrs != [] ==> !attrs[0].joined)
    && subject == Line(pieces, attrs, trailing)
  }

  /**
   * Parsing finds the attributes exactly of the subjects that are a way to write
   * them: any character may be escaped, delimiters and backslashes must be, and
   * one more delimiter may follow, without which the last value is not empty.
   */
  lemma ParseIff(subject: string, multirdn: bool, attrs: seq<Attr>)
    ensures Parse(subject, multirdn) == Some(attrs) <==>
              exists pieces, trailing :: SubjectSpells(subject, attrs, pieces, trailing, multirdn)
  {
    hide Attrs, SpellsAll, SubjectSpells, Line;
    if Parse(subject, multirdn) == Some(attrs) {
      if subject == "/" {
        AttrsEmpty(false, multirdn);
        assert subject[1..] == "" && attrs == [];
        SlashAlone(multirdn);
        assert SubjectSpells(subject, attrs, [], "/", multirdn);
      } else {
        assert subject[1..] != "";
        var pieces, trailing := LineOfAttrs(subject[1..], false, multirdn);
        assert "/" + subject[1..] == subject;
        assert SubjectSpells(subject, attrs, pieces, trailing, multirdn) by {
          SubjectIs(subject, attrs, pieces, trailing, multirdn);
        }
      }
    }
    if pieces, trailing :| SubjectSpells(subject, attrs, pieces, trailing, multirdn) {
      SubjectStarts(subject, attrs, pieces, trailing, multirdn);
      if attrs == [] {
        assert subject[1..] == "";
        AttrsEmpty(false, multirdn);
      } else {
        AttrsOfLine(pieces, attrs, trailing, multirdn);
      }
    }
  }

  lemma SlashAlone(multirdn: bool)
    ensures SubjectSpells("/", [], [], "/", multirdn)
  {
  }

  lemma SubjectIs(subject: string, attrs: seq<Attr>, pieces: seq<Piece>, trailing: string, multirdn: bool)
    requires SpellsAll(pieces, attrs, trailing, multirdn) && attrs != [] && !attrs[0].joined
    requires |pieces| == |attrs| && subject == Line(pieces, attrs, trailing)
    ensures SubjectSpells(subject, attrs, pieces, trailing, multirdn)
  {
  }

  lemma SubjectStarts(subject: string, attrs: seq<Attr>, pieces: seq<Piece>, trailing: string, multirdn: bool)
    requires SubjectSpells(subject, attrs, pieces, trailing, multirdn)
    ensures SpellsAll(pieces, attrs, trailing, multirdn) && |pieces| == |attrs|
    ensures subject == Line(pieces, attrs, trailing) && subject != "" && subject[0] == '/'
    ensures if attrs == [] then subject == "/" else !attrs[0].joined
  {
  }

  /** What tokenising makes of a printed attribute and what follows it. */
  lemma AttrsOfPrinted(a: Attr, tail: string, multirdn: bool)
    requires tail == "" || tail[0] in ValueStops(multirdn)
    ensures Attrs(PrintAttr(a) + tail, a.joined, multirdn) ==
              if tail == "" then (if a.value == "" then None else Some([a]))
              else Prefixed([a], Attrs(tail[1..], tail[0] == '+', multirdn))
  {
    hide Escape, Attrs;
    EscapeSpells(a.kind, {'='});
    EscapeSpells(a.value, if multirdn then {'/', '+'} else {'/'});
    EscapeEmpty(a.value);
    AttrsOfSpelled(a, Piece(Escape(a.kind), Escape(a.value)), tail, multirdn);
    assert PrintAttr(a) + tail == Escape(a.kind) + ("=" + (Escape(a.value) + tail));
  }

  lemma EscapeEmpty(s: string)
    ensures Escape(s) == "" <==> s == ""
  {
  }

  lemma {:induction false} AttrsOfPrint(attrs: seq<Attr>, multirdn: bool)
    requires attrs != []
    requires multirdn || forall a <- attrs :: !a.joined
    ensures Attrs(Print(attrs)[1..], attrs[0].joined, multirdn) ==
              if attrs[|attrs| - 1].value == "" then None else Some(attrs)
    decreases |attrs|
  {
    hide Attrs, Escape, PrintAttr;
    var a, more := attrs[0], attrs[1..];
    var tail := Print(more);
    assert Print(attrs)[1..] == PrintAttr(a) + tail;
    assert attrs == [a] + more;
    if more != [] {
      assert more[0] in attrs;
      assert tail[0] == if more[0].joined then '+' else '/';
      AttrsOfPrint(more, multirdn);
      assert more[|more| - 1] == attrs[|attrs| - 1];
    }
    AttrsOfPrinted(a, tail, multirdn);
    if more == [] {
      assert tail == "" && attrs == [a];
      assert PrintAttr(a) + tail == PrintAttr(a);
    }
  }

  /**
   * Parsing inverts the escaping printer: types, values and multi-valued RDNs
   * come back exactly when the last value is not empty.
   */
  lemma RoundTrip(attrs: seq<Attr>, multirdn: bool)
    requires attrs != [] && !attrs[0].joined
    requires multirdn || forall a <- attrs :: !a.joined
    ensures Parse(Print(attrs), multirdn) == Some(attrs) <==> attrs[|attrs| - 1].value != ""
    ensures attrs[|attrs| - 1].value == "" ==> Parse(Print(attrs), multirdn) == None
  {
    AttrsOfPrint(attrs, multirdn);
    assert Print(attrs)[0] == '/';
  }

  // ----- the buffers -----

  /** The text and its terminator within the first `end` characters. */
  ghost predicate StoredAt(buf: seq<char>, end: nat, at: nat, s: string)
    requires end <= |buf|
  {
    at + |s| < end && HasAt(buf, at, s)
  }

  ghost predicate Stored(buf: seq<char>, end: nat, types: seq<nat>, values: seq<nat>, mval: seq<int>, attrs: seq<Attr>)
    requires end <= |buf|
  {
    && |attrs| <= |types| && |attrs| <= |values| && |attrs| <= |mval|
    && forall k :: 0 <= k < |attrs| ==>
         && StoredAt(buf, end, types[k], attrs[k].kind)
         && StoredAt(buf, end, values[k], attrs[k].value)
         && mval[k] == if attrs[k].joined then -1 else 0
  }

  lemma StillStored(a: seq<char>, b: seq<char>, end: nat, end': nat, at: nat, s: string)
    requires end <= end' <= |b| == |a| && a[..end] == b[..end]
    requires StoredAt(a, end, at, s)
    ensures StoredAt(b, end', at, s)
  {
    forall k | 0 <= k <= |s| ensures b[at + k] == At(s, k) {
      assert a[..end][at + k] == b[..end][at + k];
    }
  }

  lemma AllStillStored(a: seq<char>, b: seq<char>, end: nat, end': nat, types: seq<nat>, values: seq<nat>,
                       mval: seq<int>, attrs: seq<Attr>)
    requires end <= end' <= |b| == |a| && a[..end] == b[..end]
    requires Stored(a, end, types, values, mval, attrs)
    ensures Stored(b, end', types, values, mval, attrs)
  {
    forall k | 0 <= k < |attrs|
      ensures StoredAt(b, end', types[k], attrs[k].kind) && StoredAt(b, end', values[k], attrs[k].value)
    {
      StillStored(a, b, end, end', types[k], attrs[k].kind);
      StillStored(a, b, end, end', values[k], attrs[k].value);
    }
  }

  /** One more attribute: older entries stay, the tables have its type, value and marker. */
  lemma StoredAppend(a: seq<char>, b: seq<char>, end: nat, end': nat, attrs: seq<Attr>, attr: Attr,
                     types: seq<nat>, values: seq<nat>, mval: seq<int>, types': seq<nat>, values': seq<nat>,
                       mval': seq<int>)
    requires end <= end' <= |b| == |a| && a[..end] == b[..end]
    requires Stored(a, end, types, values, mval, attrs)
    requires |types'| == |types| && |values'| == |values| && |mval'| == |mval|
    requires |attrs| < |types| && |attrs| < |values| && |attrs| < |mval|
    requires forall k :: 0 <= k < |attrs| ==> types'[k] == types[k] && values'[k] == values[k] && mval'[k] == mval[k]
    requires StoredAt(b, end', types'[|attrs|], attr.kind) && StoredAt(b, end', values'[|attrs|], attr.value)
    requires mval'[|attrs|] == if attr.joined then -1 else 0
    ensures Stored(b, end', types', values', mval', attrs + [attr])
  {
    forall k | 0 <= k < |attrs|
      ensures StoredAt(b, end', types[k], attrs[k].kind) && StoredAt(b, end', values[k], attrs[k].value)
    {
      StillStored(a, b, end, end', types[k], attrs[k].kind);
      StillStored(a, b, end, end', values[k], attrs[k].value);
    }
  }

  /** How an inner loop of parse_name was left. */
  datatype Ending = Broken | AtEnd | AtStop(delim: char)

  /**
   * An inner loop: copies a token, without its escapes, from the subject to the
   * buffer. What is written stays behind what is read.
   */
  method CopyToken(subject: string, buf: array<char>, sp0: nat, bp0: nat, stops: set<char>)
      returns (sp: nat, bp: nat, ending: Ending)
    requires IsCString(subject) && buf.Length == |subject| + 1
    requires bp0 < sp0 <= |subject| && '\\' !in stops
    modifies buf
    ensures sp0 <= sp <= |subject| && bp0 <= bp && bp - bp0 <= sp - sp0
    ensures buf[..bp0] == old(buf[..bp0])
    ensures match ScanToken(subject[sp0..], stops)
            case Bad => ending == Broken
            case Ended(text) => ending == AtEnd && sp == |subject| && buf[bp0..bp] == text
            case Stopped(text, delim, rest) =>
              && ending == AtStop(delim) && buf[bp0..bp] == text
              && bp - bp0 < sp - sp0 && subject[sp..] == rest && delim in stops
    ensures IsCString(buf[bp0..bp])
  {
    hide ScanToken, Prepend;
    sp, bp := sp0, bp0;
    ghost var text := "";
    PrependTwice("", "", ScanToken(subject[sp..], stops));
    while sp < |subject|
      invariant sp0 <= sp <= |subject| && bp0 <= bp && bp - bp0 <= sp - sp0
      invariant buf[..bp0] == old(buf[..bp0]) && buf[bp0..bp] == text && IsCString(text)
      invariant ScanToken(subject[sp0..], stops) == Prepend(text, ScanToken(subject[sp..], stops))
    {
      ScanStep(subject, sp, stops, text);
      if subject[sp] == '\\' {
        sp := sp + 1;
        if sp == |subject| {
          return sp, bp, Broken;
        }
        buf[bp] := subject[sp];
        text := text + [subject[sp]];
        sp, bp := sp + 1, bp + 1;
      } else if subject[sp] in stops {
        return sp + 1, bp, AtStop(subject[sp]);
      } else {
        buf[bp] := subject[sp];
        text := text + [subject[sp]];
        sp, bp := sp + 1, bp + 1;
      }
    }
    assert subject[sp..] == "";
    ScanEnd(text, stops);
    ending := AtEnd;
  }

  lemma ScanEnd(text: string, stops: set<char>)
    ensures Prepend(text, ScanToken("", stops)) == Ended(text)
  {
    assert text + "" == text;
  }

  /** One step of a scan that has collected `text` so far. */
  lemma ScanStep(s: string, sp: nat, stops: set<char>, text: string)
    requires sp < |s| && '\\' !in stops
    ensures Prepend(text, ScanToken(s[sp..], stops)) ==
              if s[sp] == '\\' then
                if sp + 1 == |s| then Bad else Prepend(text + [s[sp + 1]], ScanToken(s[sp + 2..], stops))
              else if s[sp] in stops then Stopped(text, s[sp], s[sp + 1..])
              else Prepend(text + [s[sp]], ScanToken(s[sp + 1..], stops))
  {
    var rest := s[sp..];
    assert rest[0] == s[sp] && rest[1..] == s[sp + 1..] && text + "" == text;
    if s[sp] == '\\' {
      if sp + 1 < |s| {
        assert rest[1] == s[sp + 1] && rest[2..] == s[sp + 2..];
        PrependTwice(text, [s[sp + 1]], ScanToken(s[sp + 2..], stops));
      }
    } else {
      PrependTwice(text, [s[sp]], ScanToken(s[sp + 1..], stops));
    }
  }

  /** Ends the token just copied. */
  method Terminate(buf: array<char>, from: nat, bp: nat)
    requires from <= bp < buf.Length && IsCString(buf[from..bp])
    modifies buf
    ensures buf[..bp] == old(buf[..bp])
    ensures StoredAt(buf[..], bp + 1, from, old(buf[from..bp]))
  {
    ghost var s := buf[from..bp];
    buf[bp] := NUL;
    assert forall k :: 0 <= k <= |s| ==> buf[from + k] == At(s, k);
  }

  /** Copies a token and ends it; the type of an attribute is not ended unless its delimiter was found. */
  method ReadToken(subject: string, buf: array<char>, sp0: nat, bp0: nat, stops: set<char>, needStop: bool)
      returns (sp: nat, bp: nat, ending: Ending, ghost text: string)
    requires IsCString(subject) && buf.Length == |subject| + 1
    requires bp0 < sp0 <= |subject| && '\\' !in stops
    modifies buf
    ensures sp0 <= sp <= |subject| && buf[..bp0] == old(buf[..bp0])
    ensures match ScanToken(subject[sp0..], stops)
            case Bad => ending == Broken
            case Ended(s) => ending == AtEnd && sp == |subject| && s == text
            case Stopped(s, delim, rest) =>
              ending == AtStop(delim) && delim in stops && s == text && sp0 < sp && subject[sp..] == rest &&
                bp - bp0 <= sp - sp0
    ensures ending.AtStop? || (ending == AtEnd && !needStop) ==>
              bp0 < bp <= buf.Length && bp <= bp0 + (sp - sp0) + 1 && StoredAt(buf[..], bp, bp0, text)
  {
    hide ScanToken;
    sp, bp, ending := CopyToken(subject, buf, sp0, bp0, stops);
    text := buf[bp0..bp];
    if ending == Broken || (ending == AtEnd && needStop) {
      return;
    }
    ghost var before := buf[..bp0];
    Terminate(buf, bp0, bp);
    assert buf[..bp0] == buf[..bp][..bp0];
    bp := bp + 1;
  }

  /** What one turn of the outer loop did. */
  datatype Turn = Failed | Last | More(joined: bool)

  /**
   * One turn of the outer loop: reads an attribute, records where its type and
   * value are, and presets the marker of the next one. Every index stays inside
   * its table.
   */
  method ParseAttr(subject: string, multirdn: bool, buf: array<char>, types: array<nat>, values: array<nat>,
                   mval: array<int>,
                   neNum: nat, sp0: nat, bp0: nat, joined: bool, ghost done: seq<Attr>)
      returns (sp: nat, bp: nat, turn: Turn, ghost attr: Attr)
    requires IsCString(subject) && buf.Length == |subject| + 1
    requires types.Length == values.Length == mval.Length == buf.Length / 2 + 1 && types != values
    requires bp0 < sp0 < |subject| && 2 * neNum < sp0
    requires |done| == neNum && Stored(buf[..], bp0, types[..], values[..], mval[..], done)
    requires mval[neNum] == if joined then -1 else 0
    modifies buf, types, values, mval
    ensures turn.Failed? ==> Attrs(subject[sp0..], joined, multirdn) == None
    ensures !turn.Failed? ==>
              && sp0 < sp <= |subject| && bp <= |subject| + 1 && 2 * (neNum + 1) < sp + 1
              && Stored(buf[..], bp, types[..], values[..], mval[..], done + [attr])
    ensures turn.Last? ==> sp == |subject| && Attrs(subject[sp0..], joined, multirdn) == Some([attr])
    ensures turn.More? ==>
              && bp < sp && 2 * (neNum + 1) < sp && mval[neNum + 1] == (if turn.joined then -1 else 0)
              && Attrs(subject[sp0..], joined, multirdn)
                   == Prefixed([attr], Attrs(subject[sp..], turn.joined, multirdn))
  {
    hide ScanToken, Attrs, Stored, StoredAt, Prefixed;
    attr := Attr("", "", joined);
    ghost var buf0, types0, values0, mval0 := buf[..], types[..], values[..], mval[..];
    types[neNum] := bp0;
    var sp1, bp1, ending;
    ghost var kind, value;
    sp1, bp1, ending, kind := ReadToken(subject, buf, sp0, bp0, TYPE_STOPS, true);
    if !ending.AtStop? || sp1 == |subject| {
      AttrsFail(subject[sp0..], joined, multirdn);
      return sp1, bp1, Failed, attr;
    }
    ghost var buf1 := buf[..];
    values[neNum] := bp1;
    sp, bp, ending, value := ReadToken(subject, buf, sp1, bp1, ValueStops(multirdn), false);
    if ending == Broken {
      AttrsFail(subject[sp0..], joined, multirdn);
      return sp, bp, Failed, attr;
    }
    attr := Attr(kind, value, joined);
    if ending.AtStop? {
      mval[neNum + 1] := if ending.delim == '/' then 0 else -1;
      turn := More(ending.delim == '+');
      AttrsMore(subject[sp0..], joined, multirdn, kind, subject[sp1..], value, ending.delim, subject[sp..]);
    } else {
      turn := Last;
      AttrsLast(subject[sp0..], joined, multirdn, kind, subject[sp1..], value);
    }
    StillStored(buf1, buf[..], bp1, bp, bp0, kind);
    assert buf0[..bp0] == buf1[..bp1][..bp0] == buf[..][..bp0];
    StoredAppend(buf0, buf[..], bp0, bp, done, attr, types0, values0, mval0, types[..], values[..], mval[..]);
  }

  /**
   * The tokenising phase of parse_name. Every write stays inside the allocated
   * buffers, and the tables spell out the attributes of the subject.
   */
  method ParseName(subject: string, multirdn: bool)
      returns (ok: bool, neNum: nat, buf: array<char>, types: array<nat>, values: array<nat>, mval: array<int>,
               ghost attrs: seq<Attr>)
    requires IsCString(subject)
    ensures ok <==> Parse(subject, multirdn).Some?
    ensures ok ==> Some(attrs) == Parse(subject, multirdn) && neNum == |attrs|
    ensures ok ==> Stored(buf[..], buf.Length, types[..], values[..], mval[..], attrs)
  {
    hide Attrs, Stored;
    var buflen := |subject| + 1;
    buf := new char[buflen](_ => NUL);
    types := new nat[buflen / 2 + 1](_ => 0);
    values := new nat[buflen / 2 + 1](_ => 0);
    mval := new int[buflen / 2 + 1](_ => 0);
    neNum, attrs := 0, [];
    if At(subject, 0) != '/' {
      return false, 0, buf, types, values, mval, attrs;
    }
    var sp: nat, bp: nat := 1, 0;
    var joined := false;
    NothingStored(buf[..], types[..], values[..], mval[..]);
    mval[neNum] := 0;
    PrefixedNone(Attrs(subject[sp..], joined, multirdn));
    while sp < |subject|
      invariant sp <= |subject| && bp <= buf.Length && (sp < |subject| ==> bp < sp && 2 * neNum < sp)
      invariant |attrs| == neNum && Stored(buf[..], bp, types[..], values[..], mval[..], attrs)
      invariant sp < |subject| ==> mval[neNum] == if joined then -1 else 0
      invariant Parse(subject, multirdn) == Prefixed(attrs, Attrs(subject[sp..], joined, multirdn))
      decreases |subject| - sp
    {
      var turn;
      ghost var attr;
      var sp0, joined0 := sp, joined;
      sp, bp, turn, attr := ParseAttr(subject, multirdn, buf, types, values, mval, neNum, sp, bp, joined, attrs);
      if turn.Failed? {
        return false, neNum, buf, types, values, mval, attrs;
      }
      neNum := neNum + 1;
      joined := turn.More? && turn.joined;
      PrefixedNext(attrs, attr, Attrs(subject[sp..], joined, multirdn));
      if turn.Last? {
        AttrsEmpty(joined, multirdn);
        assert subject[sp..] == "";
      }
      attrs := attrs + [attr];
    }
    assert subject[sp..] == "";
    AttrsEmpty(joined, multirdn);
    assert attrs + [] == attrs;
    AllStillStored(buf[..], buf[..], bp, buf.Length, types[..], values[..], mval[..], attrs);
    ok := true;
  }

  lemma AttrsEmpty(joined: bool, multirdn: bool)
    ensures Attrs("", joined, multirdn) == Some([])
  {
  }

  lemma NothingStored(buf: seq<char>, types: seq<nat>, values: seq<nat>, mval: seq<int>)
    ensures Stored(buf, 0, types, values, mval, [])
    ensures forall m: seq<int> :: Stored(buf, 0, types, values, m, [])
  {
  }
}
