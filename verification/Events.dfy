/** Events and their names: socketio/src/event.rs. */
module Events {

  datatype Event = Message | Error | Custom(name: string) | Connect | Close

  /** Lower case; only ASCII letters matter, since no other character lowers to a letter of the reserved names. */
  function Lower(s: string): (r: string)
    ensures |r| == |s|
  {
    seq(|s|, i requires 0 <= i < |s| => LowerChar(s[i]))
  }

  function LowerChar(c: char): char {
    if 'A' <= c <= 'Z' then (c as int - 'A' as int + 'a' as int) as char else c
  }

  function EventOf(name: string): Event {
    var lower := Lower(name);
    if lower == "message" then Message
    else if lower == "error" then Error
    else if lower == "open" then Connect
    else if lower == "close" then Close
    else Custom(name)
  }

  function NameOf(e: Event): string {
    match e
    case Message => "message"
    case Connect => "open"
    case Close => "close"
    case Error => "error"
    case Custom(name) => name
  }

  /** The names, in any capitalisation, that stand for a built-in event. */
  predicate Reserved(name: string) {
    Lower(name) == "message" || Lower(name) == "error" || Lower(name) == "open" || Lower(name) == "close"
  }

  /** An event is recognised again by its name unless it is a custom event with a reserved name. */
  lemma EventRoundTrip(e: Event)
    ensures EventOf(NameOf(e)) == e <==> !(e.Custom? && Reserved(e.name))
  {
    assert Lower("message") == "message";
    assert Lower("error") == "error";
    assert Lower("open") == "open";
    assert Lower("close") == "close";
  }

  /** The same letter up to ASCII case. */
  predicate SameLetter(a: char, b: char) {
    || a == b
    || ('A' <= a <= 'Z' && b as int == a as int + 32)
    || ('A' <= b <= 'Z' && a as int == b as int + 32)
  }

  /** Names that differ only in ASCII case stand for the same built-in event, or both for none. */
  lemma CaseIgnored(a: string, b: string)
    requires |a| == |b| && forall i | 0 <= i < |a| :: SameLetter(a[i], b[i])
    ensures EventOf(a) == (if EventOf(b).Custom? then Custom(a) else EventOf(b))
  {
    assert Lower(a) == Lower(b) by {
      forall i | 0 <= i < |a|
        ensures LowerChar(a[i]) == LowerChar(b[i])
      {
        assert SameLetter(a[i], b[i]);
      }
    }
  }

  /** The names of the built-in events. */
  lemma BuiltInNames()
    ensures EventOf("message") == Message && EventOf("error") == Error && EventOf("open") == Connect && EventOf("close") == Close
    ensures EventOf("Message") == Message && EventOf("OPEN") == Connect && EventOf("connect") == Custom("connect")
    ensures NameOf(Message) == "message" && NameOf(Error) == "error" && NameOf(Connect) == "open" && NameOf(Close) == "close"
  {
    assert Lower("message") == "message" && Lower("error") == "error" && Lower("open") == "open" && Lower("close") == "close";
    assert Lower("Message") == "message" && Lower("OPEN") == "open" && Lower("connect") == "connect";
    assert "connect"[0] == 'c' && "close"[1] == 'l' && "connect"[1] == 'o';
  }
}
