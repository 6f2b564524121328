/** The pure part of the asimov logger: how `info` lays out a line, how `flush` renders the
    buffer, and what `update` and `remove` do to the buffer, as functions on values. */
module LogFormat {
  import opened Wrappers
  import opened Text

  /** Width of the namespace column. */
  const Limit: nat := 16
  /** Placeholder that `update` fills with the elapsed time and `flush` erases. */
  const TimeToken := "%time%"
  /** Word `info` removes from a namespace. */
  const CollectionWord := "Collection"
  /** ANSI "erase display, cursor home". */
  const ClearCommand := "\U{1B}[2J\U{1B}[0f"
  /** Message of the error `info` and `wait` throw. */
  const MissingNamespaceOrMessage := "Cannot log waiting message without namespace or message"

  /** One buffered log entry (a LogBuffer): its id, which stands for the object's identity,
      and its current message. */
  datatype Entry = Entry(id: int, message: string)

  /** The colour decorations of the `colors` library, left uninterpreted:
      `.bold`, `.inverse` and the logger's colour (`[self.color]`). */
  datatype Style = Style(bold: string -> string, inverse: string -> string, tint: string -> string)

  // ---------------------------------------------------------------- info

  /** The namespace with its first "Collection" removed. */
  function Stripped(namespace: string): (r: string)
    ensures (forall j :: !OccursAt(namespace, CollectionWord, j)) ==> r == namespace
    ensures forall i :: FirstAt(namespace, CollectionWord, i) ==>
      r == namespace[..i] + namespace[i + |CollectionWord|..]
    ensures r == namespace || |r| == |namespace| - |CollectionWord|
  {
    ReplaceFirst(namespace, CollectionWord, "")
  }

  /** The namespace `info` prints: stripped, then cut to `Limit` characters. */
  function Normalized(namespace: string): (r: string)
    ensures |r| <= Limit
    ensures |r| <= |Stripped(namespace)| && r == Stripped(namespace)[..|r|]
    ensures |Stripped(namespace)| <= Limit ==> r == Stripped(namespace)
    ensures |Stripped(namespace)| > Limit ==> |r| == Limit
  {
    var s := Stripped(namespace);
    if |s| > Limit then s[..Limit] else s
  }

  /** The text `info` puts before the namespace: the caller's prefix when the stripped
      namespace is too long, otherwise padding that fills the column. An absent prefix
      counts as the empty string. */
  function Column(namespace: string, prefix: Option<string>): (r: string)
    ensures |Stripped(namespace)| <= Limit ==>
      |r| + |Normalized(namespace)| == Limit && forall i :: 0 <= i < |r| ==> r[i] == ' '
    ensures |Stripped(namespace)| > Limit ==> r == prefix.GetOr("")
    ensures prefix == None ==> forall i :: 0 <= i < |r| ==> r[i] == ' '
  {
    var s := Stripped(namespace);
    if |s| > Limit then prefix.GetOr("") else Spaces(Limit - |s|)
  }

  /** JavaScript's string conversion of a possibly `undefined` string operand of `+`. */
  function JsText(v: Option<string>): (r: string)
  {
    match v
    case Some(s) => s
    case None => "undefined"
  }

  /** `Column` as the code is written: `prefix + namespace` with no prefix argument
      concatenates the text "undefined". */
  function ColumnAsWritten(namespace: string, prefix: Option<string>): (r: string)
    ensures |Stripped(namespace)| > Limit && prefix == None ==> r == "undefined"
    ensures prefix.Some? || |Stripped(namespace)| <= Limit ==> r == Column(namespace, prefix)
  {
    var s := Stripped(namespace);
    if |s| > Limit then JsText(prefix) else Spaces(Limit - |s|)
  }

  /** A namespace of 28 characters without "Collection", logged without a prefix,
      starts its column with the word "undefined". */
  lemma UndefinedPrefixShown()
    ensures ColumnAsWritten("asimov-pages-static-renderer", None) == "undefined"
    ensures Column("asimov-pages-static-renderer", None) == ""
  {
    var ns := "asimov-pages-static-renderer";
    assert |ns| == 28;
    assert |Stripped(ns)| >= 18;
  }

  /** `info`'s fresh-line test on the last namespace, with JavaScript truthiness. */
  function IsFreshLine(last: Option<string>, namespace: string): (r: bool)
    ensures namespace != "" ==> (r <==> last != Some(namespace))
  {
    var truthy := last.Some? && last.value != "";
    (truthy && namespace != last.value) || !truthy
  }

  /** The line `info` logs and returns for a namespace that passed the emptiness check. It
      always ends with a space, the message and, when shown, a space and the time. */
  function InfoLine(last: Option<string>, namespace: string, message: string, showTime: bool,
                    prefix: Option<string>, time: string, style: Style): (r: string)
    ensures var tail := " " + message + (if showTime then " " + time else "");
            |tail| <= |r| && forall k :: 0 <= k < |tail| ==> r[|r| - |tail| + k] == tail[k]
  {
    var ns := Normalized(namespace);
    var isFresh := IsFreshLine(last, ns);
    var lead := if isFresh then "\n" + Column(namespace, prefix) else Column(namespace, prefix);
    var shown := if isFresh then style.inverse(style.bold(ToUpper(ns))) else Spaces(|ns|);
    var tail := " " + message + (if showTime then " " + time else "");
    assert lead + shown + " " + message + (if showTime then " " + time else "")
        == lead + shown + tail;
    lead + shown + " " + message + (if showTime then " " + time else "")
  }

  /** A repeated namespace that fits the column is blanked: the line is `Limit` spaces,
      one more space, then the message (and the time). */
  lemma RepeatedNamespaceLine(last: Option<string>, namespace: string,
      message: string, showTime: bool, prefix: Option<string>, time: string, style: Style)
    requires |Stripped(namespace)| <= Limit && Normalized(namespace) != ""
    requires last == Some(Normalized(namespace))
    ensures InfoLine(last, namespace, message, showTime, prefix, time, style)
         == Spaces(Limit) + " " + message + (if showTime then " " + time else "")
  {
    var ns := Normalized(namespace);
    assert !IsFreshLine(last, ns);
    assert Column(namespace, prefix) == Spaces(Limit - |ns|);
    SpacesSplit(Limit - |ns|, |ns|);
  }

  /** A repeated namespace too long for the column is blanked to `Limit` spaces after the
      prefix: the line is the prefix, `Limit` spaces, one more space, then the message
      (and the time). */
  lemma RepeatedLongNamespaceLine(last: Option<string>, namespace: string,
      message: string, showTime: bool, prefix: Option<string>, time: string, style: Style)
    requires |Stripped(namespace)| > Limit
    requires last == Some(Normalized(namespace))
    ensures InfoLine(last, namespace, message, showTime, prefix, time, style)
         == prefix.GetOr("") + Spaces(Limit) + " " + message + (if showTime then " " + time else "")
  {
    assert !IsFreshLine(last, Normalized(namespace));
  }

  /** A new namespace starts a new line: a newline, the column, the decorated upper-cased
      namespace, a space, then the message (and the time). */
  lemma FreshNamespaceLine(last: Option<string>, namespace: string, message: string,
      showTime: bool, prefix: Option<string>, time: string, style: Style)
    requires Normalized(namespace) != "" && last != Some(Normalized(namespace))
    ensures InfoLine(last, namespace, message, showTime, prefix, time, style)
         == "\n" + Column(namespace, prefix)
            + style.inverse(style.bold(ToUpper(Normalized(namespace))))
            + " " + message + (if showTime then " " + time else "")
  {
  }

  /** `InfoLine` assembled from its two computed parts. */
  lemma InfoLineParts(last: Option<string>, namespace: string, message: string, showTime: bool,
                      prefix: Option<string>, time: string, style: Style, lead: string, shown: string)
    requires var ns := Normalized(namespace);
      lead == (if IsFreshLine(last, ns) then "\n" + Column(namespace, prefix) else Column(namespace, prefix))
      && shown == (if IsFreshLine(last, ns) then style.inverse(style.bold(ToUpper(ns))) else Spaces(|ns|))
    ensures InfoLine(last, namespace, message, showTime, prefix, time, style)
         == lead + shown + " " + message + (if showTime then " " + time else "")
  {
  }

  // ---------------------------------------------------------------- flush

  /** One entry as `flush` writes it: first time token removed, newline appended. */
  function Line(e: Entry): (r: string)
    ensures |r| > 0 && r[|r| - 1] == '\n'
    ensures (forall j :: !OccursAt(e.message, TimeToken, j)) ==> r == e.message + "\n"
  {
    ReplaceFirst(e.message, TimeToken, "") + "\n"
  }

  /** The lines of all entries, in buffer order: empty exactly for an empty buffer, and
      otherwise ending in a newline. */
  function Rendered(entries: seq<Entry>): (r: string)
    ensures r == "" <==> entries == []
    ensures r != "" ==> r[|r| - 1] == '\n'
    ensures |r| >= |entries|
  {
    if entries == [] then "" else Line(entries[0]) + Rendered(entries[1..])
  }

  /** What `flush` writes to the console: the clear command, a newline, then the coloured
      rendering of the buffer. */
  function Screen(entries: seq<Entry>, style: Style): (r: string)
    ensures |ClearCommand| + 1 <= |r|
    ensures r[..|ClearCommand| + 1] == ClearCommand + "\n"
    ensures r[|ClearCommand| + 1..] == style.tint(Rendered(entries))
  {
    ClearCommand + "\n" + style.tint(Rendered(entries))
  }

  /** Rendering distributes over concatenation of buffers: every entry contributes its own
      line, in order. */
  lemma {:induction false} RenderedConcat(a: seq<Entry>, b: seq<Entry>)
    ensures Rendered(a + b) == Rendered(a) + Rendered(b)
  {
    if a == [] {
      assert a + b == b;
    } else {
      assert (a + b)[0] == a[0] && (a + b)[1..] == a[1..] + b;
      RenderedConcat(a[1..], b);
    }
  }

  /** Appending an entry appends its line to the rendering. */
  lemma {:induction false} RenderedSnoc(entries: seq<Entry>, e: Entry)
    ensures Rendered(entries + [e]) == Rendered(entries) + Line(e)
  {
    RenderedConcat(entries, [e]);
    assert [e][1..] == [];
  }

  // ---------------------------------------------------------------- update

  /** One entry after `update` for `id` with time text `time`. */
  function Stamped(e: Entry, id: int, time: string): (r: Entry)
    ensures r.id == e.id
    ensures e.id != id ==> r == e
    ensures (forall j :: !OccursAt(e.message, TimeToken, j)) ==> r == e
    ensures e.id == id ==> r.message == ReplaceFirst(e.message, TimeToken, time)
  {
    if e.id == id && IndexOf(e.message, TimeToken) >= 0
    then e.(message := ReplaceFirst(e.message, TimeToken, time))
    else e
  }

  /** The buffer after `update`: same length and order; entries with another id, and entries
      without the time token, are untouched; the others have their first token replaced. */
  function Updated(buffer: seq<Entry>, id: int, time: string): (r: seq<Entry>)
    ensures |r| == |buffer|
    ensures forall i :: 0 <= i < |r| ==> r[i].id == buffer[i].id
    ensures forall i :: 0 <= i < |r| && buffer[i].id != id ==> r[i] == buffer[i]
    ensures forall i :: 0 <= i < |r| && (forall j :: !OccursAt(buffer[i].message, TimeToken, j))
              ==> r[i] == buffer[i]
    ensures forall i :: 0 <= i < |r| && buffer[i].id == id
              ==> r[i].message == ReplaceFirst(buffer[i].message, TimeToken, time)
  {
    seq(|buffer|, i requires 0 <= i < |buffer| => Stamped(buffer[i], id, time))
  }

  // ---------------------------------------------------------------- remove

  /** No two entries share an id: each entry is a distinct object. */
  predicate DistinctIds(s: seq<Entry>)
  {
    forall i, j :: 0 <= i < |s| && 0 <= j < |s| && s[i].id == s[j].id ==> i == j
  }

  /** lodash `_.without(buffer, target)`: `buffer` without the object `target`, whose identity
      is its id. */
  function Without(s: seq<Entry>, id: int): (r: seq<Entry>)
    ensures forall k :: 0 <= k < |r| ==> r[k].id != id
    ensures |r| <= |s|
  {
    if s == [] then [] else (if s[0].id == id then [] else [s[0]]) + Without(s[1..], id)
  }

  /** Every entry that remains was in the buffer. */
  lemma {:induction false} WithoutSubset(s: seq<Entry>, id: int)
    ensures forall e :: e in Without(s, id) ==> e in s
  {
    if s != [] {
      WithoutSubset(s[1..], id);
      assert forall e :: e in s[1..] ==> e in s;
    }
  }

  /** Distinct ids stay distinct in the tail. */
  lemma DistinctTail(s: seq<Entry>)
    requires DistinctIds(s) && s != []
    ensures DistinctIds(s[1..])
  {
    forall i, j | 0 <= i < |s[1..]| && 0 <= j < |s[1..]| && s[1..][i].id == s[1..][j].id
      ensures i == j
    {
      assert s[i + 1].id == s[j + 1].id;
    }
  }

  /** With distinct ids, no entry of the tail has the head's id. */
  lemma HeadIdUnique(s: seq<Entry>)
    requires DistinctIds(s) && s != []
    ensures forall e :: e in s[1..] ==> e.id != s[0].id
  {
    forall e | e in s[1..] ensures e.id != s[0].id {
      var m :| 0 <= m < |s[1..]| && s[1..][m] == e;
      assert s[m + 1] == e;
    }
  }

  /** An entry in front of entries with other, distinct ids keeps the ids distinct. */
  lemma DistinctCons(x: Entry, rest: seq<Entry>)
    requires DistinctIds(rest)
    requires forall k :: 0 <= k < |rest| ==> rest[k].id != x.id
    ensures DistinctIds([x] + rest)
  {
    var r := [x] + rest;
    forall k | 1 <= k < |r| ensures r[k] == rest[k - 1] && r[k].id != r[0].id {
    }
    forall i, j | 0 <= i < |r| && 0 <= j < |r| && r[i].id == r[j].id ensures i == j {
    }
  }

  /** Removal keeps the ids of the remaining entries distinct. */
  lemma {:induction false} WithoutDistinct(s: seq<Entry>, id: int)
    requires DistinctIds(s)
    ensures DistinctIds(Without(s, id))
  {
    if s != [] {
      var rest := Without(s[1..], id);
      DistinctTail(s);
      WithoutDistinct(s[1..], id);
      if s[0].id != id {
        HeadIdUnique(s);
        WithoutSubset(s[1..], id);
        forall k | 0 <= k < |rest| ensures rest[k].id != s[0].id {
          assert rest[k] in rest;
        }
        DistinctCons(s[0], rest);
      }
    }
  }

  /** `_.without` removes every entry with that identity and keeps every other entry as often
      as it occurred. */
  lemma {:induction false} WithoutCounts(s: seq<Entry>, id: int, y: Entry)
    ensures multiset(Without(s, id))[y] == if y.id == id then 0 else multiset(s)[y]
  {
    if s != [] {
      assert s == [s[0]] + s[1..];
      WithoutCounts(s[1..], id, y);
    }
  }

  /** `_.without` keeps the relative order: it distributes over concatenation. */
  lemma {:induction false} WithoutConcat(a: seq<Entry>, b: seq<Entry>, id: int)
    ensures Without(a + b, id) == Without(a, id) + Without(b, id)
  {
    if a != [] {
      var head := if a[0].id == id then [] else [a[0]];
      assert (a + b)[0] == a[0] && (a + b)[1..] == a[1..] + b;
      assert Without(a + b, id) == head + Without(a[1..] + b, id);
      WithoutConcat(a[1..], b, id);
      assert Without(a, id) == head + Without(a[1..], id);
    } else {
      assert a + b == b;
    }
  }

  /** Removing an identity that no entry has leaves the buffer as it is. */
  lemma {:induction false} WithoutAbsent(s: seq<Entry>, id: int)
    requires forall k :: 0 <= k < |s| ==> s[k].id != id
    ensures Without(s, id) == s
  {
    if s != [] {
      WithoutAbsent(s[1..], id);
      assert s == [s[0]] + s[1..];
    }
  }

  /** Removing the id of `x` from `x` followed by entries without that id drops `x` alone. */
  lemma {:induction false} WithoutHead(x: Entry, post: seq<Entry>)
    requires forall k :: 0 <= k < |post| ==> post[k].id != x.id
    ensures Without([x] + post, x.id) == post
  {
    WithoutAbsent(post, x.id);
    assert ([x] + post)[1..] == post;
  }

  /** Removing the id of `x`, which no entry around it has, drops `x` alone. */
  lemma {:induction false} WithoutBetween(pre: seq<Entry>, x: Entry, post: seq<Entry>)
    requires forall k :: 0 <= k < |pre| ==> pre[k].id != x.id
    requires forall k :: 0 <= k < |post| ==> post[k].id != x.id
    ensures Without(pre + ([x] + post), x.id) == pre + post
  {
    WithoutAbsent(pre, x.id);
    WithoutHead(x, post);
    WithoutConcat(pre, [x] + post, x.id);
  }

  /** With distinct ids, removing the entry at `i` drops exactly that one entry and keeps the
      others in order. */
  lemma {:induction false} WithoutOne(s: seq<Entry>, i: nat)
    requires DistinctIds(s) && i < |s|
    ensures Without(s, s[i].id) == s[..i] + s[i + 1..]
  {
    var pre, post := s[..i], s[i + 1..];
    forall k | 0 <= k < |pre| ensures pre[k].id != s[i].id {
      assert pre[k] == s[k];
    }
    forall k | 0 <= k < |post| ensures post[k].id != s[i].id {
      assert post[k] == s[i + 1 + k];
    }
    WithoutBetween(pre, s[i], post);
    assert s == pre + ([s[i]] + post);
  }

  /** Identity survives `update`: removing an id after updating the buffer removes the same
      entries as before, and leaves the others as `update` made them. */
  lemma {:induction false} RemoveAfterUpdate(s: seq<Entry>, id: int, time: string)
    ensures Without(Updated(s, id, time), id) == Updated(Without(s, id), id, time)
  {
    if s != [] {
      var u := Updated(s, id, time);
      assert u[0] == Stamped(s[0], id, time);
      assert u[1..] == Updated(s[1..], id, time);
      RemoveAfterUpdate(s[1..], id, time);
      var head := if s[0].id == id then [] else [s[0]];
      assert Without(s, id) == head + Without(s[1..], id);
      assert Without(u, id) == head + Without(u[1..], id);
      assert Updated(head + Without(s[1..], id), id, time)
          == Updated(head, id, time) + Updated(Without(s[1..], id), id, time);
      assert Updated(head, id, time) == head;
    }
  }
}
