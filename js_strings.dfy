/** The JavaScript string behaviour the bot's message handler relies on:
    the text of a message (which may be absent), `String(x)`, `startsWith`,
    the leading-white-space trim that `parseInt`/`parseFloat` perform, and
    `split`/`join` on a one-character separator. */
module JsStrings {

  datatype Option<+T> = None | Some(value: T)

  /** `msg.text` of an incoming Telegram message: a photo or a sticker has
      no text, which JavaScript sees as `undefined`. */
  datatype MsgText = NoText | Text(s: string)

  /** `String(v)`: what `parseInt`, `parseFloat` and `RegExp.prototype.test`
      read when handed the message text. */
  function ToJsString(t: MsgText): (r: string)
    ensures t.Text? ==> r == t.s
    ensures t.NoText? ==> r == "undefined"
  {
    match t
    case NoText => "undefined"
    case Text(s) => s
  }

  predicate StartsWith(s: string, prefix: string) {
    |prefix| <= |s| && s[..|prefix|] == prefix
  }

  /** `text?.startsWith('/')`: an absent text is not a command. */
  predicate IsCommand(t: MsgText) {
    t.Text? && StartsWith(t.s, "/")
  }

  /** `list.includes(x)` on an array of strings: a scan from the front for
      an equal string. */
  function Includes(list: seq<string>, x: string): bool {
    list != [] && (list[0] == x || Includes(list[1..], x))
  }

  /** The scan finds exactly the members of the list. */
  lemma {:induction false} IncludesIsMembership(list: seq<string>, x: string)
    ensures Includes(list, x) <==> x in list
  {
    if list != [] {
      IncludesIsMembership(list[1..], x);
      assert list == [list[0]] + list[1..];
    }
  }

  /** Every entry of the list is found. */
  lemma {:induction false} IncludesEntry(list: seq<string>, k: nat)
    requires k < |list|
    ensures Includes(list, list[k])
  {
    if k > 0 {
      IncludesEntry(list[1..], k - 1);
    }
  }

  /** ECMAScript StrWhiteSpaceChar: WhiteSpace (TAB, VT, FF, SP, NBSP, ZWNBSP and
      every Zs space) or LineTerminator (LF, CR, LS, PS). */
  predicate IsStrWhiteSpace(c: char) {
    c == '\t' || c == '\U{000B}' || c == '\U{000C}' || c == ' ' || c == '\U{00A0}'
    || c == '\U{FEFF}' || c == '\U{1680}' || ('\U{2000}' <= c <= '\U{200A}')
    || c == '\U{202F}' || c == '\U{205F}' || c == '\U{3000}'
    || c == '\n' || c == '\r' || c == '\U{2028}' || c == '\U{2029}'
  }

  /** The leading-white-space trim of `parseInt` and `parseFloat`. */
  function TrimStart(s: string): (r: string)
    ensures |r| <= |s| && r == s[|s| - |r|..]
    ensures r == [] || !IsStrWhiteSpace(r[0])
  {
    if s != [] && IsStrWhiteSpace(s[0]) then TrimStart(s[1..]) else s
  }

  /** What the trim removes is white space and nothing else. */
  lemma {:induction false} TrimStartRemovesOnlyWhiteSpace(s: string)
    ensures forall i :: 0 <= i < |s| - |TrimStart(s)| ==> IsStrWhiteSpace(s[i])
  {
    if s != [] && IsStrWhiteSpace(s[0]) {
      TrimStartRemovesOnlyWhiteSpace(s[1..]);
      forall i | 1 <= i < |s| - |TrimStart(s)| ensures IsStrWhiteSpace(s[i]) {
        assert s[i] == s[1..][i - 1];
      }
    }
  }

  /** `s.split(sep)` for a one-character separator: the pieces between
      separators, always at least one (`"".split(sep)` is `[""]`). */
  function Split(s: string, sep: char): (parts: seq<string>)
    ensures |parts| >= 1
  {
    if s == [] then [[]]
    else if s[0] == sep then [[]] + Split(s[1..], sep)
    else
      var rest := Split(s[1..], sep);
      [[s[0]] + rest[0]] + rest[1..]
  }

  /** `parts.join(sep)` for a one-character separator. */
  function Join(parts: seq<string>, sep: char): string {
    if |parts| == 0 then []
    else if |parts| == 1 then parts[0]
    else parts[0] + [sep] + Join(parts[1..], sep)
  }

  /** A piece without the separator splits into itself, and splitting a piece
      followed by the separator peels that piece off. */
  lemma {:induction false} SplitPiece(a: string, b: string, sep: char)
    requires sep !in a
    ensures Split(a, sep) == [a]
    ensures Split(a + [sep] + b, sep) == [a] + Split(b, sep)
  {
    if a != [] {
      assert a[0] != sep;
      SplitPiece(a[1..], b, sep);
      assert [a[0]] + a[1..] == a;
      assert (a + [sep] + b)[1..] == a[1..] + [sep] + b;
    } else {
      assert a + [sep] + b == [sep] + b;
      assert ([sep] + b)[1..] == b;
    }
  }

  /** Splitting undoes joining, as long as no piece holds the separator. */
  lemma {:induction false} SplitJoin(parts: seq<string>, sep: char)
    requires |parts| >= 1
    requires forall i :: 0 <= i < |parts| ==> sep !in parts[i]
    ensures Split(Join(parts, sep), sep) == parts
  {
    if |parts| == 1 {
      SplitPiece(parts[0], [], sep);
    } else {
      SplitJoin(parts[1..], sep);
      SplitPiece(parts[0], Join(parts[1..], sep), sep);
      assert [parts[0]] + parts[1..] == parts;
    }
  }
}
