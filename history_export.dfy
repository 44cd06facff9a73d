/** The downloadable chat history (app.py, the History view).

    Each transcript entry becomes the line `ROLE (time): message`, the role
    name upper-cased, and the lines are joined with a blank line between
    them. The view offers the download only when the transcript is not
    empty. ParseEntry reads a line back; ParseFormatEntry proves that it
    recovers the entry whenever the time holds no ')', as an "HH:MM" clock
    reading never does.
 */
module HistoryExport {
  import opened ChatLog

  datatype Option<T> = None | Some(value: T)

  /** str.upper() on the characters a role name is made of. */
  function UpperChar(c: char): char {
    if 'a' <= c <= 'z' then (c as int - 32) as char else c
  }

  function Upper(s: string): string {
    seq(|s|, i requires 0 <= i < |s| => UpperChar(s[i]))
  }

  /** How a role is written in the export: its name upper-cased. */
  function Label(r: Role): string {
    Upper(RoleName(r))
  }

  /** The roles "user" and "bot" are exported as USER and BOT. */
  lemma LabelValues()
    ensures Label(User) == "USER"
    ensures Label(Bot) == "BOT"
  {
  }

  /** One exported line: `ROLE (time): message`. */
  function FormatEntry(e: Entry): string {
    Label(e.role) + " (" + e.time + "): " + e.message
  }

  /** The separator between exported lines: one blank line. */
  const Separator: string := "\n\n"

  /** str.join: the parts with sep between each two neighbours. */
  function Join(parts: seq<string>, sep: string): string {
    if |parts| == 0 then ""
    else if |parts| == 1 then parts[0]
    else parts[0] + sep + Join(parts[1..], sep)
  }

  /** The exported line of every entry, in transcript order. */
  function Lines(log: seq<Entry>): seq<string> {
    seq(|log|, i requires 0 <= i < |log| => FormatEntry(log[i]))
  }

  /** The history download: nothing for an empty transcript, otherwise every entry's
      line joined by blank lines. */
  function Export(log: seq<Entry>): Option<string> {
    if log == [] then None else Some(Join(Lines(log), Separator))
  }

  /** The position of the first c in s, or |s| when there is none. */
  function IndexOf(s: string, c: char): (r: nat)
    ensures r <= |s|
    ensures r < |s| ==> s[r] == c
    ensures forall j :: 0 <= j < r ==> s[j] != c
  {
    if s == [] then 0
    else if s[0] == c then 0
    else 1 + IndexOf(s[1..], c)
  }

  /** Reads the role label and the " (" after it at the start of a line. */
  function ParseRole(line: string): Option<(Role, string)> {
    var user := Label(User) + " (";
    var bot := Label(Bot) + " (";
    if user <= line then Some((User, line[|user|..]))
    else if bot <= line then Some((Bot, line[|bot|..]))
    else None
  }

  /** Reads an exported line back: the label, the time up to the first ')', then "): "
      and the message. */
  function ParseEntry(line: string): Option<Entry> {
    match ParseRole(line)
    case None => None
    case Some((role, rest)) =>
      var k := IndexOf(rest, ')');
      if k + 3 <= |rest| && rest[k..k + 3] == "): " then Some(Entry(role, rest[k + 3..], rest[..k]))
      else None
  }

  /** An exported line determines its entry: reading it back gives the entry again,
      provided the time holds no ')' (an "HH:MM" clock reading never does). */
  lemma ParseFormatEntry(e: Entry)
    requires ')' !in e.time
    ensures ParseEntry(FormatEntry(e)) == Some(e)
  {
    LabelValues();
    var line := FormatEntry(e);
    var p := Label(e.role) + " (";
    var rest := e.time + "): " + e.message;
    assert line == p + rest;
    assert ParseRole(line) == Some((e.role, rest)) by {
      assert line[..|p|] == p;
      if e.role == Bot {
        assert line[0] == 'B';
      }
      assert line[|p|..] == rest;
    }
    var k := IndexOf(rest, ')');
    assert rest[|e.time|] == ')';
    assert k == |e.time|;
    assert k + 3 <= |rest|;
    assert rest[k..k + 3] == "): ";
    assert rest[..k] == e.time;
    assert rest[k + 3..] == e.message;
  }

  /** Without that condition the line format is ambiguous: a time holding "): " lets two
      different entries export as the same line. */
  lemma FormatEntryAmbiguous()
    ensures Entry(User, "b", "a): c") != Entry(User, "c): b", "a")
    ensures FormatEntry(Entry(User, "b", "a): c")) == FormatEntry(Entry(User, "c): b", "a")) == "USER (a): c): b"
  {
    LabelValues();
  }

  /** Where part i of Join(parts, sep) begins. */
  function Start(parts: seq<string>, sep: string, i: nat): nat
    requires i <= |parts|
  {
    if i == 0 then 0 else |parts[0]| + |sep| + Start(parts[1..], sep, i - 1)
  }

  lemma SliceOfAppend(a: string, b: string, x: nat, y: nat)
    requires |a| <= x <= y <= |a| + |b|
    ensures (a + b)[x..y] == b[x - |a|..y - |a|]
  {
  }

  /** Join(parts, sep) is exactly the parts, in order, with sep between each two
      neighbours: part i sits at Start(i), a separator follows every part but the last,
      and the last part ends the text. */
  lemma {:induction false} JoinAt(parts: seq<string>, sep: string, i: nat)
    requires i < |parts|
    ensures Start(parts, sep, i) + |parts[i]| <= |Join(parts, sep)|
    ensures Join(parts, sep)[Start(parts, sep, i)..Start(parts, sep, i) + |parts[i]|] == parts[i]
    ensures i + 1 < |parts| ==>
      && Start(parts, sep, i + 1) == Start(parts, sep, i) + |parts[i]| + |sep|
      && Start(parts, sep, i + 1) <= |Join(parts, sep)|
      && Join(parts, sep)[Start(parts, sep, i) + |parts[i]|..Start(parts, sep, i + 1)] == sep
    ensures i + 1 == |parts| ==> Start(parts, sep, i) + |parts[i]| == |Join(parts, sep)|
  {
    if |parts| > 1 {
      var head := parts[0] + sep;
      var tail := parts[1..];
      var rest := Join(tail, sep);
      var whole := Join(parts, sep);
      assert whole == head + rest;
      if i == 0 {
        JoinAt(tail, sep, 0);
        assert Start(parts, sep, 1) == |head|;
        assert whole[..|parts[0]|] == parts[0];
        assert whole[|parts[0]|..|head|] == sep;
      } else {
        JoinAt(tail, sep, i - 1);
        assert tail[i - 1] == parts[i];
        var x := Start(tail, sep, i - 1);
        assert Start(parts, sep, i) == |head| + x;
        SliceOfAppend(head, rest, |head| + x, |head| + x + |parts[i]|);
        if i + 1 < |parts| {
          assert Start(parts, sep, i + 1) == |head| + Start(tail, sep, i);
          SliceOfAppend(head, rest, |head| + x + |parts[i]|, |head| + Start(tail, sep, i));
        }
      }
    }
  }

  /** The sum of the lengths of the parts. */
  function TotalLength(parts: seq<string>): nat {
    if parts == [] then 0 else |parts[0]| + TotalLength(parts[1..])
  }

  /** n parts joined carry exactly n - 1 separators beside their own characters. */
  lemma {:induction false} JoinLength(parts: seq<string>, sep: string)
    requires parts != []
    ensures |Join(parts, sep)| == TotalLength(parts) + (|parts| - 1) * |sep|
  {
    if |parts| > 1 {
      JoinLength(parts[1..], sep);
    }
  }

  /** The history export of a transcript: none when it is empty; otherwise its n lines,
      line i being entry i formatted (and reading back to entry i when its time holds
      no ')', which an "HH:MM" reading never does), with exactly the n - 1 blank-line
      separators between them and nothing else. */
  lemma ExportAt(log: seq<Entry>, i: nat)
    requires i < |log|
    ensures Export(log).Some?
    ensures var text := Export(log).value;
      var at := Start(Lines(log), Separator, i);
      && at + |FormatEntry(log[i])| <= |text|
      && text[at..at + |FormatEntry(log[i])|] == FormatEntry(log[i])
      && (')' !in log[i].time ==> ParseEntry(text[at..at + |FormatEntry(log[i])|]) == Some(log[i]))
      && (i + 1 < |log| ==>
            && Start(Lines(log), Separator, i + 1) == at + |FormatEntry(log[i])| + 2
            && Start(Lines(log), Separator, i + 1) <= |text|
            && text[at + |FormatEntry(log[i])|..Start(Lines(log), Separator, i + 1)] == "\n\n")
      && (i + 1 == |log| ==> at + |FormatEntry(log[i])| == |text|)
  {
    JoinAt(Lines(log), Separator, i);
    if ')' !in log[i].time {
      ParseFormatEntry(log[i]);
    }
  }

  /** No download is offered for an empty transcript; otherwise the text's length is its
      lines' lengths plus two characters for each of the n - 1 separators. */
  lemma ExportLength(log: seq<Entry>)
    ensures log == [] <==> Export(log).None?
    ensures log != [] ==> |Export(log).value| == TotalLength(Lines(log)) + 2 * (|log| - 1)
  {
    if log != [] {
      JoinLength(Lines(log), Separator);
    }
  }

  /** Two parts joined: the first, the separator, the second. */
  lemma JoinTwo(a: string, b: string, sep: string)
    ensures Join([a, b], sep) == a + sep + b
  {
  }

  /** One question "Hi" answered "Hello" at 10:00 exports as two lines and a blank line. */
  lemma ExportOneExchange()
    ensures Export(Transcript([Exchange("Hi", "Hello", "10:00")])) == Some("USER (10:00): Hi\n\nBOT (10:00): Hello")
  {
    LabelValues();
    var xs := [Exchange("Hi", "Hello", "10:00")];
    assert xs[..0] == [];
    var log := Transcript(xs);
    assert log == [Entry(User, "Hi", "10:00"), Entry(Bot, "Hello", "10:00")];
    var a, b := FormatEntry(log[0]), FormatEntry(log[1]);
    assert a == "USER" + " (" + "10:00" + "): " + "Hi";
    assert b == "BOT" + " (" + "10:00" + "): " + "Hello";
    assert Lines(log) == [a, b];
    JoinTwo(a, b, Separator);
    assert Export(log) == Some(a + Separator + b);
    assert a + Separator + b == "USER (10:00): Hi\n\nBOT (10:00): Hello";
  }
}
