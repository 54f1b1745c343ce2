/** Input events (pyterm/__events.py): the mouse button table, key names, the
    byte decoder of the listener loop, the deduplicating event queue, the
    pressed-key table and the drain-and-clear `get`. */
module Input {
  import opened Common

  type Byte = b: int | 0 <= b < 256

  const Esc: Byte := 0x1B

  // ---------------------------------------------------------------------
  // Names

  /** The xterm button code (report byte minus 32) as an event type name;
      codes outside the table give None, as the fall-through `match` does. */
  function ToName(button: int): (r: Option<string>)
    ensures r.Some? <==> button in {0, 3, 32, 35, 64, 65, 66, 67}
    ensures r == Some("MouseMove") <==> button == 32 || button == 35
    ensures r == Some("LeftMouseDown") <==> button == 0
    ensures r == Some("LeftMouseUp") <==> button == 3
    ensures r == Some("ScrollDown") <==> button == 64
    ensures r == Some("ScrollUp") <==> button == 65
    ensures r == Some("ScrollLeft") <==> button == 66
    ensures r == Some("ScrollRight") <==> button == 67
  {
    match button
    case 0 => Some("LeftMouseDown")
    case 3 => Some("LeftMouseUp")
    case 35 => Some("MouseMove")
    case 64 => Some("ScrollDown")
    case 65 => Some("ScrollUp")
    case 67 => Some("ScrollRight")
    case 66 => Some("ScrollLeft")
    case 32 => Some("MouseMove")
    case _ => None
  }

  /** The `symb` table: spoken names of whitespace and punctuation. */
  const Symb: map<char, string> := map[
    '\t' := "tab", '\n' := "return", '\r' := "backspace", ' ' := "space",
    '`' := "backtick", '~' := "tilde", '!' := "exclamation", '@' := "at sign",
    '#' := "hashtag", '$' := "dollar sign", '%' := "percent sign", '^' := "exponent",
    '&' := "and", '*' := "asterisk", '(' := "open round bracket",
    ')' := "close round bracket", '-' := "minus", '_' := "underscore", '=' := "equals",
    '+' := "plus", '[' := "open square bracket", ']' := "close square bracket",
    '{' := "open brace", '}' := "close brace", '\\' := "backslash", '/' := "slash",
    '|' := "vertical pipe", ';' := "semicolon", ':' := "colon", '\'' := "single quote",
    '\"' := "double quotes", ',' := "comma", '.' := "dot", '<' := "left angle bracket",
    '>' := "right angle bracket", '?' := "question mark"]

  function UpperChar(c: char): char
  {
    if 'a' <= c <= 'z' then (c as int - 32) as char else c
  }

  /** `str.upper()` on ASCII text. */
  function Upper(s: string): string
  {
    seq(|s|, i requires 0 <= i < |s| => UpperChar(s[i]))
  }

  /** `str.replace(" ", "_")`. */
  function Underscored(s: string): string
  {
    seq(|s|, i requires 0 <= i < |s| => if s[i] == ' ' then '_' else s[i])
  }

  /** A key as the keyboard library hands it over: a special key with a
      `name`, a key code with a `char`, or (for `get_key_name`) a bare
      string, which has neither. */
  datatype Key = Special(name: string) | Code(ch: string) | Raw(s: string)

  /** `get_key_name`: the key's base name, replaced by its spoken name with
      underscores when it is a single `symb` character. */
  function KeyName(key: Key): string
  {
    var n := match key
      case Special(name) => Upper(name)
      case Code(ch) => ch
      case Raw(s) => s;
    if |n| == 1 && n[0] in Symb then "KEY_" + Upper(Underscored(Symb[n[0]]))
    else "KEY_" + n
  }

  /** The name the listener loop gives a plain byte decoding to `c`: the
      spoken name uppercased with its spaces KEPT. */
  function DecodedKeyName(c: char): string
  {
    "KEY_" + (if c in Symb then Upper(Symb[c]) else [c])
  }

  /** `get_key_name` of a `symb` character is `KEY_` and its spoken name in
      capitals with underscores for spaces; the result holds no space. */
  lemma KeyNameSymb(c: char)
    requires c in Symb
    ensures KeyName(Code([c])) == "KEY_" + Upper(Underscored(Symb[c]))
    ensures ' ' !in KeyName(Code([c]))
  {
    var u := Upper(Underscored(Symb[c]));
    assert forall i :: 0 <= i < |u| ==> u[i] != ' ';
    var n := "KEY_" + u;
    assert forall i :: 4 <= i < |n| ==> n[i] == u[i - 4];
  }

  /** Uppercasing with and without replacing spaces agrees exactly on text
      without spaces. */
  lemma UnderscoreMatters(v: string)
    ensures Upper(Underscored(v)) == Upper(v) <==> ' ' !in v
  {
    if ' ' in v {
      var j :| 0 <= j < |v| && v[j] == ' ';
      assert Upper(Underscored(v))[j] == '_' && Upper(v)[j] == ' ';
    } else {
      assert Underscored(v) == v;
    }
  }

  /** `get_key_name` and the listener loop spell a character's name the same
      way exactly unless it is a `symb` character whose spoken name has a
      space (`"KEY_AT_SIGN"` against `"KEY_AT SIGN"`). */
  lemma KeyNameSpellings(c: char)
    ensures KeyName(Code([c])) == DecodedKeyName(c) <==> !(c in Symb && ' ' in Symb[c])
  {
    if c in Symb {
      var v := Symb[c];
      KeyNameSymb(c);
      UnderscoreMatters(v);
      var a, b := Upper(Underscored(v)), Upper(v);
      assert ("KEY_" + a == "KEY_" + b) == (a == b) by {
        if "KEY_" + a == "KEY_" + b {
          assert a == ("KEY_" + a)[4..] && b == ("KEY_" + b)[4..];
        }
      }
    }
  }

  /** The name `on_press`/`on_release` give a key: no `symb` lookup. */
  function PressName(key: Key): string
    requires !key.Raw?
  {
    if key.Special? then "KEY_" + Upper(key.name) else "KEY_" + key.ch
  }

  // ---------------------------------------------------------------------
  // Queue entries and events

  /** A queued dictionary: `{"values": (name, phase), "type": "KEY"}` or
      `{"values": (kind, pos), "type": "MOUSE"}`. */
  datatype Entry =
    | KeyEntry(name: string, phase: string)
    | MouseEntry(kind: Option<string>, pos: Pos)

  datatype Event =
    | KeyboardEvent(key: string, phase: string)
    | MouseEvent(kind: Option<string>, pos: Pos)

  function ToEvent(e: Entry): Event
  {
    match e
    case KeyEntry(n, p) => KeyboardEvent(n, p)
    case MouseEntry(k, pos) => MouseEvent(k, pos)
  }

  /** `__eq__` of both event classes: same class and same fields. */
  function EventEq(a: Event, b: Event): (r: bool)
    ensures r <==> a == b
  {
    match (a, b)
    case (KeyboardEvent(k1, t1), KeyboardEvent(k2, t2)) => k1 == k2 && t1 == t2
    case (MouseEvent(t1, p1), MouseEvent(t2, p2)) => p1 == p2 && t1 == t2
    case _ => false
  }

  /** Converting queue entries loses nothing: equal events come from equal
      entries. */
  lemma ToEventInjective(a: Entry, b: Entry)
    ensures EventEq(ToEvent(a), ToEvent(b)) <==> a == b
  {
  }

  // ---------------------------------------------------------------------
  // The byte decoder

  datatype StopReason =
    | UnboundEvent     // NameError: `event` read before any mouse report
    | BadUtf8          // UnicodeDecodeError on a lone byte >= 0x80
    | TruncatedReport  // IndexError: fewer than 3 report bytes

  /** What one turn of the listener loop does. */
  datatype Action =
    | MouseReport(entry: Entry)
    | KeyDown(name: string)
    | NoEvent
    | Stopped(reason: StopReason)

  datatype Step = Step(action: Action, rest: seq<Byte>)

  /** One turn of the listener loop on the bytes still to be read. The loop
      body reads 1 byte, then 2 after ESC, then 3 after `ESC [ M`; a short
      read means the stream ended. `reportRead` says whether the loop's
      `event` variable has been bound by an earlier mouse report. */
  function Decode(input: seq<Byte>, reportRead: bool): (s: Step)
    requires input != []
    ensures |s.rest| < |input| && s.rest == input[|input| - |s.rest|..]
    ensures s.action.MouseReport? ==> s.action.entry.MouseEntry? && |s.rest| == |input| - 6
    ensures s.action.KeyDown? && input[0] != Esc ==> reportRead && input[0] < 0x80
  {
    var b := input[0];
    if b == Esc then
      var n := Min(3, |input|);
      var sq := input[1..n];
      if sq == [0x5B, 0x4D] then
        var m := Min(6, |input|);
        var report := input[3..m];
        if |report| < 3 then Step(Stopped(TruncatedReport), input[m..])
        else
          var button, row, col := report[0] as int - 32, report[1] as int - 32 - 1, report[2] as int - 32 - 1;
          Step(MouseReport(MouseEntry(ToName(button), (row, col * 2))), input[6..])
      else if sq == [0x5B, 0x41] then Step(KeyDown("KEY_UP"), input[3..])
      else if sq == [0x5B, 0x42] then Step(KeyDown("KEY_DOWN"), input[3..])
      else if sq == [0x5B, 0x43] then Step(KeyDown("KEY_RIGHT"), input[3..])
      else if sq == [0x5B, 0x44] then Step(KeyDown("KEY_LEFT"), input[3..])
      else Step(NoEvent, input[n..])
    else if !reportRead then Step(Stopped(UnboundEvent), input[1..])
    else if b >= 0x80 then Step(Stopped(BadUtf8), input[1..])
    else Step(KeyDown(DecodedKeyName(b as char)), input[1..])
  }

  /** The bytes an xterm sends for a mouse report. */
  function MouseBytes(button: int, row: int, col: int): seq<Byte>
    requires -32 <= button < 224 && -33 <= row < 223 && -33 <= col < 223
  {
    [Esc, 0x5B, 0x4D, button + 32, row + 33, col + 33]
  }

  /** Decoding a mouse report recovers its button name, its row and twice
      its column, whatever follows it and whatever came before. */
  lemma DecodeMouse(button: int, row: int, col: int, rest: seq<Byte>, reportRead: bool)
    requires -32 <= button < 224 && -33 <= row < 223 && -33 <= col < 223
    ensures Decode(MouseBytes(button, row, col) + rest, reportRead)
         == Step(MouseReport(MouseEntry(ToName(button), (row, 2 * col))), rest)
  {
    var input := MouseBytes(button, row, col) + rest;
    assert input[1..3] == [0x5B, 0x4D];
    assert input[3..6] == [button + 32, row + 33, col + 33];
    assert input[6..] == rest;
  }

  /** The example report `ESC [ M 0x20 0x21 0x22`: a left press at row 0,
      column 1, queued at position (0, 2). */
  lemma DecodeExampleReport()
    ensures Decode([0x1B, 0x5B, 0x4D, 0x20, 0x21, 0x22], false).action
         == MouseReport(MouseEntry(Some("LeftMouseDown"), (0, 2)))
  {
    var input: seq<Byte> := [0x1B, 0x5B, 0x4D, 0x20, 0x21, 0x22];
    assert input == MouseBytes(0, 0, 1) + [];
    DecodeMouse(0, 0, 1, [], false);
  }

  /** The arrow-key sequences `ESC [ A..D`. */
  function ArrowName(code: Byte): (r: Option<string>)
    ensures r.Some? <==> 0x41 <= code <= 0x44
  {
    if code == 0x41 then Some("KEY_UP")
    else if code == 0x42 then Some("KEY_DOWN")
    else if code == 0x43 then Some("KEY_RIGHT")
    else if code == 0x44 then Some("KEY_LEFT")
    else None
  }

  /** An ESC sequence other than a mouse report or an arrow key consumes its
      two bytes and queues nothing; an arrow key queues its name. */
  lemma DecodeEscapeSequence(c1: Byte, c2: Byte, rest: seq<Byte>, reportRead: bool)
    requires !(c1 == 0x5B && c2 == 0x4D)
    ensures Decode([Esc, c1, c2] + rest, reportRead)
         == if c1 == 0x5B && ArrowName(c2).Some? then Step(KeyDown(ArrowName(c2).value), rest)
            else Step(NoEvent, rest)
  {
    var input := [Esc, c1, c2] + rest;
    assert input[1..3] == [c1, c2];
    assert input[3..] == rest;
  }

  /** A single byte below 0x80 other than ESC, once a report has bound the
      loop's `event`, queues its decoded key name; before that it stops the
      loop. */
  lemma DecodeKeyByte(b: Byte, rest: seq<Byte>, reportRead: bool)
    requires b != Esc && b < 0x80
    ensures Decode([b] + rest, reportRead)
         == if reportRead then Step(KeyDown(DecodedKeyName(b as char)), rest)
            else Step(Stopped(UnboundEvent), rest)
  {
    assert ([b] + rest)[1..] == rest;
  }

  // ---------------------------------------------------------------------
  // Listener state and its specification

  /** The state the listener loop changes. */
  datatype Listener = Listener(events: seq<Entry>, pressed: map<string, bool>,
                               reportRead: bool, stopped: bool)

  /** The effect of one action on the listener state. */
  function Apply(st: Listener, a: Action): Listener
  {
    match a
    case MouseReport(e) =>
      st.(events := if e in st.events then st.events else st.events + [e], reportRead := true)
    case KeyDown(n) =>
      st.(events := st.events + [KeyEntry(n, "KEYDOWN")], pressed := st.pressed[n := true])
    case NoEvent => st
    case Stopped(_) => st.(stopped := true)
  }

  /** The listener loop over the whole input; once stopped it reads nothing. */
  function Run(st: Listener, input: seq<Byte>): Listener
    decreases |input|
  {
    if input == [] || st.stopped then st
    else
      var s := Decode(input, st.reportRead);
      Run(Apply(st, s.action), s.rest)
  }

  /** No mouse entry occurs twice in the queue. */
  predicate MouseUnique(es: seq<Entry>)
  {
    forall i, j :: 0 <= i < j < |es| && es[j].MouseEntry? ==> es[i] != es[j]
  }

  /** Every key entry from index `from` on is a KEYDOWN of a pressed key. */
  predicate PressedFrom(st: Listener, from: nat)
  {
    forall i :: from <= i < |st.events| && st.events[i].KeyEntry? ==>
      st.events[i].phase == "KEYDOWN" && st.events[i].name in st.pressed && st.pressed[st.events[i].name]
  }

  /** The loop only appends to the queue, keeps mouse entries unique, never
      releases a key, and every key entry it adds names a pressed key. */
  lemma {:induction false} RunInvariants(st: Listener, input: seq<Byte>)
    requires MouseUnique(st.events)
    ensures var r := Run(st, input);
      && st.events <= r.events
      && MouseUnique(r.events)
      && (forall k :: k in st.pressed && st.pressed[k] ==> k in r.pressed && r.pressed[k])
      && (PressedFrom(st, |st.events|) ==> PressedFrom(r, |st.events|))
    decreases |input|
  {
    if input != [] && !st.stopped {
      var s := Decode(input, st.reportRead);
      var st' := Apply(st, s.action);
      assert st.events <= st'.events;
      assert MouseUnique(st'.events) by {
        if s.action.MouseReport? && s.action.entry !in st.events {
          forall i, j | 0 <= i < j < |st'.events| && st'.events[j].MouseEntry?
            ensures st'.events[i] != st'.events[j]
          {
            if j == |st.events| {
              assert st'.events[i] == st.events[i];
            }
          }
        }
      }
      if PressedFrom(st, |st.events|) {
        assert PressedFrom(st', |st.events|);
      }
      RunInvariants(st', s.rest);
      if PressedFrom(st, |st.events|) {
        var r := Run(st', s.rest);
        assert PressedFrom(r, |st'.events|);
        forall i | |st.events| <= i < |st'.events| && r.events[i].KeyEntry?
          ensures r.events[i].name in r.pressed && r.pressed[r.events[i].name]
        {
          assert r.events[i] == st'.events[i];
        }
      }
    }
  }

  // ---------------------------------------------------------------------
  // The module-level state as an object

  class InputState {
    var events: seq<Entry>
    var pressed: map<string, bool>
    /** `CLOSED`. */
    var closed: bool
    /** Whether the listener loop's `event` variable is bound. */
    var reportRead: bool
    /** Whether the listener loop has died on an exception. */
    var stopped: bool
    /** `start_term`, the window identity at start-up. */
    const startTerm: Option<string>

    /** The initial `pressed` table comes from the keyboard library and is
        taken as given. */
    constructor (startTerm: Option<string>, pressed: map<string, bool>)
      ensures this.startTerm == startTerm && this.pressed == pressed
      ensures events == [] && !closed && !reportRead && !stopped
    {
      this.startTerm := startTerm;
      this.pressed := pressed;
      events := [];
      closed := false;
      reportRead := false;
      stopped := false;
    }

    function State(): Listener
      reads this
    {
      Listener(events, pressed, reportRead, stopped)
    }

    /** `close()`. */
    method Close()
      modifies this`closed
      ensures closed
    {
      closed := true;
    }

    /** The focus-loss reset: every known key becomes released. */
    method ReleaseAll()
      modifies this`pressed
      ensures pressed.Keys == old(pressed).Keys
      ensures forall k :: k in pressed ==> !pressed[k]
    {
      var rest := pressed.Keys;
      while rest != {}
        invariant rest <= pressed.Keys
        invariant pressed.Keys == old(pressed).Keys
        invariant forall k :: k in pressed && k !in rest ==> !pressed[k]
        decreases rest
      {
        var k :| k in rest;
        pressed := pressed[k := false];
        rest := rest - {k};
      }
    }

    /** `on_press(key)` with the current window identity `win`. */
    method OnPress(key: Key, win: Option<string>)
      requires !key.Raw?
      modifies this`events, this`pressed
      ensures startTerm != win ==>
                && events == old(events)
                && pressed.Keys == old(pressed).Keys
                && (forall k :: k in pressed ==> !pressed[k])
      ensures startTerm == win ==>
                var e := KeyEntry(PressName(key), "KEYDOWN");
                && events == (if e in old(events) then old(events) else old(events) + [e])
                && pressed == old(pressed)[PressName(key) := true]
    {
      if startTerm != win {
        ReleaseAll();
        return;
      }
      var name := PressName(key);
      if name !in pressed {
        pressed := pressed[name := false];
      }
      var e := KeyEntry(name, "KEYDOWN");
      if e !in events {
        events := events + [e];
      }
      if !pressed[name] {
        pressed := pressed[name := true];
      }
    }

    /** `on_release(key)` with the current window identity `win`. */
    method OnRelease(key: Key, win: Option<string>)
      requires !key.Raw?
      modifies this`events, this`pressed
      ensures startTerm != win ==>
                && events == old(events)
                && pressed.Keys == old(pressed).Keys
                && (forall k :: k in pressed ==> !pressed[k])
      ensures startTerm == win ==>
                var e := KeyEntry(PressName(key), "KEYUP");
                && events == (if e in old(events) then old(events) else old(events) + [e])
                && pressed == old(pressed)[PressName(key) := false]
    {
      if startTerm != win {
        ReleaseAll();
        return;
      }
      var name := PressName(key);
      if name !in pressed {
        pressed := pressed[name := false];
      }
      var e := KeyEntry(name, "KEYUP");
      if e !in events {
        events := events + [e];
      }
      if pressed[name] {
        pressed := pressed[name := false];
      }
    }

    /** The listener loop over the bytes available on standard input; it
        does nothing once closed or stopped. */
    method Poll(input: seq<Byte>)
      modifies this`events, this`pressed, this`reportRead, this`stopped
      ensures State() == if closed then old(State()) else Run(old(State()), input)
    {
      if closed {
        return;
      }
      var rest := input;
      while rest != [] && !stopped
        invariant Run(State(), rest) == Run(old(State()), input)
        decreases |rest|
      {
        var step := Decode(rest, reportRead);
        match step.action {
          case MouseReport(e) =>
            if e !in events {
              events := events + [e];
            }
            reportRead := true;
          case KeyDown(n) =>
            events := events + [KeyEntry(n, "KEYDOWN")];
            pressed := pressed[n := true];
          case NoEvent =>
          case Stopped(_) =>
            stopped := true;
        }
        rest := step.rest;
      }
    }

    /** `get()`: the queued entries as events, in order; the queue is left
        empty. */
    method Get() returns (evs: seq<Event>)
      modifies this`events
      ensures |evs| == |old(events)|
      ensures forall i :: 0 <= i < |evs| ==> evs[i] == ToEvent(old(events)[i])
      ensures events == []
    {
      var queued := events;
      evs := [];
      var i := 0;
      while i < |queued|
        invariant 0 <= i <= |queued|
        invariant |evs| == i
        invariant forall j :: 0 <= j < i ==> evs[j] == ToEvent(queued[j])
      {
        evs := evs + [ToEvent(queued[i])];
        i := i + 1;
      }
      events := [];
    }
  }
}
