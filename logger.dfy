/** The asimov logger object: an ordered buffer of entries and the two fields `info` and
    `header` keep about the previous line. */
module Logging {
  import opened Wrappers
  import opened Text
  import opened LogFormat

  /** `_.times(n, function () { prefix += ' '; })` starting from the empty prefix. */
  method PadSpaces(n: nat) returns (pad: string)
    ensures |pad| == n && forall i :: 0 <= i < n ==> pad[i] == ' '
  {
    pad := "";
    var k := 0;
    while k < n
      invariant 0 <= k <= n
      invariant |pad| == k && forall i :: 0 <= i < k ==> pad[i] == ' '
    {
      pad := pad + " ";
      k := k + 1;
    }
  }

  class Logger {
    /** The buffered entries, oldest first. */
    var buffer: seq<Entry>
    /** The namespace of the last `info` line; `None` before the first. */
    var lastNamespace: Option<string>
    /** Whether the last line logged through `info` or `wait` (cleared by `header`). */
    var lastWasInfo: bool
    /** The identity the next new entry gets. */
    var nextId: int
    /** The colour decorations. */
    const style: Style

    /** Every buffered entry is a distinct object, created before `nextId` was drawn. */
    ghost predicate Valid()
      reads this
    {
      DistinctIds(buffer) && forall k :: 0 <= k < |buffer| ==> buffer[k].id < nextId
    }

    constructor (style: Style)
      ensures Valid()
      ensures buffer == [] && lastNamespace == None && !lastWasInfo && this.style == style
    {
      this.style := style;
      buffer := [];
      lastNamespace := None;
      lastWasInfo := false;
      nextId := 0;
    }

    /** `log`: append one new entry holding `message`. */
    method Log(message: string)
      requires Valid()
      modifies this
      ensures Valid()
      ensures buffer == old(buffer) + [Entry(old(nextId), message)] && nextId == old(nextId) + 1
      ensures lastNamespace == old(lastNamespace) && lastWasInfo == old(lastWasInfo)
    {
      buffer := buffer + [Entry(nextId, message)];
      nextId := nextId + 1;
    }

    /** `logClear`: log the message behind the clear command. */
    method LogClear(message: string)
      requires Valid()
      modifies this
      ensures Valid()
      ensures buffer == old(buffer) + [Entry(old(nextId), ClearCommand + "\n" + message)]
      ensures nextId == old(nextId) + 1
      ensures lastNamespace == old(lastNamespace) && lastWasInfo == old(lastWasInfo)
    {
      Log(ClearCommand + "\n" + message);
    }

    /** `header`: a bold "# " heading, preceded by an empty line after info lines. */
    method Header(message: string)
      requires Valid()
      modifies this
      ensures Valid()
      ensures buffer == old(buffer) + [Entry(old(nextId),
        style.bold((if old(lastWasInfo) then "\n" else "") + "# " + message) + "\n")]
      ensures nextId == old(nextId) + 1
      ensures lastNamespace == old(lastNamespace) && !lastWasInfo
    {
      var text := "# " + message;
      if lastWasInfo {
        text := "\n" + text;
      }
      assert text == (if lastWasInfo then "\n" else "") + "# " + message;
      Log(style.bold(text) + "\n");
      lastWasInfo := false;
    }

    /** `info`: lay out one namespaced line, log it and return it; throws, changing nothing,
        when the normalised namespace or the message is empty. */
    method Info(namespace: string, message: string, showTime: bool, prefix: Option<string>,
                time: string) returns (r: Result<string>)
      requires Valid()
      modifies this
      ensures Valid()
      ensures r.Ok? <==> Normalized(namespace) != "" && message != ""
      ensures r.Err? ==>
        (r.message == MissingNamespaceOrMessage && buffer == old(buffer) && nextId == old(nextId)
         && lastNamespace == old(lastNamespace) && lastWasInfo == old(lastWasInfo))
      ensures r.Ok? ==>
        r.value == InfoLine(old(lastNamespace), namespace, message, showTime, prefix, time, style)
        && buffer == old(buffer) + [Entry(old(nextId), r.value)] && nextId == old(nextId) + 1
        && lastNamespace == Some(Normalized(namespace)) && lastWasInfo
    {
      var ns := ReplaceFirst(namespace, CollectionWord, "");
      var pre := prefix.GetOr("");
      if |ns| > Limit {
        ns := ns[..Limit];
      } else {
        pre := PadSpaces(Limit - |ns|);
        assert pre == Spaces(Limit - |ns|);
      }
      assert ns == Normalized(namespace) && pre == Column(namespace, prefix);
      if ns == "" || message == "" {
        return Err(MissingNamespaceOrMessage);
      }
      ghost var last := lastNamespace;
      var isFresh := IsFreshLine(lastNamespace, ns);
      lastNamespace := Some(ns);
      var shown;
      if isFresh {
        pre := "\n" + pre;
        shown := style.inverse(style.bold(ToUpper(ns)));
      } else {
        shown := Spaces(|ns|);
      }
      var line := pre + shown + " " + message;
      if showTime {
        line := line + " " + time;
      }
      InfoLineParts(last, namespace, message, showTime, prefix, time, style, pre, shown);
      Log(line);
      lastWasInfo := true;
      r := Ok(line);
    }

    /** `wait`: an info line with prefix ">" and no time; unless `showTime` is false the new
        entry is stamped in place by LogBuffer's `addTime`, whose effect on the message is the
        parameter `addTime`; the entry is returned. */
    method Wait(namespace: string, message: string, showTime: bool,
                addTime: string -> string) returns (r: Result<Entry>)
      requires Valid()
      modifies this
      ensures Valid()
      ensures r.Ok? <==> namespace != "" && message != "" && Normalized(namespace) != ""
      ensures r.Err? ==>
        (r.message == MissingNamespaceOrMessage && buffer == old(buffer) && nextId == old(nextId)
         && lastNamespace == old(lastNamespace) && lastWasInfo == old(lastWasInfo))
      ensures r.Ok? ==>
        var line := InfoLine(old(lastNamespace), namespace, message, false, Some(">"), "", style);
        r.value == Entry(old(nextId), if showTime then addTime(line) else line)
        && buffer == old(buffer) + [r.value] && nextId == old(nextId) + 1
        && lastNamespace == Some(Normalized(namespace)) && lastWasInfo
    {
      if namespace == "" || message == "" {
        return Err(MissingNamespaceOrMessage);
      }
      var line := Info(namespace, message, false, Some(">"), "");
      if line.Err? {
        return Err(line.message);
      }
      lastWasInfo := true;
      var last := buffer[|buffer| - 1];
      if showTime {
        last := last.(message := addTime(last.message));
        buffer := buffer[..|buffer| - 1] + [last];
      }
      r := Ok(last);
    }

    /** `flush`: the text written to the console, built entry by entry. */
    method Flush() returns (screen: string)
      ensures screen == Screen(buffer, style)
    {
      var entries := buffer;
      var output := "";
      var i := 0;
      while i < |entries|
        invariant 0 <= i <= |entries|
        invariant output == Rendered(entries[..i])
      {
        var line := ReplaceFirst(entries[i].message, TimeToken, "") + "\n";
        assert entries[..i + 1] == entries[..i] + [entries[i]];
        RenderedSnoc(entries[..i], entries[i]);
        output := output + line;
        i := i + 1;
      }
      assert entries[..i] == entries;
      screen := ClearCommand + "\n" + style.tint(output);
    }

    /** `update`: fill the time token of every entry carrying `target`'s id, then flush. */
    method Update(target: Entry, time: string) returns (screen: string)
      requires Valid()
      modifies this
      ensures Valid() && nextId == old(nextId)
      ensures buffer == Updated(old(buffer), target.id, time)
      ensures lastNamespace == old(lastNamespace) && lastWasInfo == old(lastWasInfo)
      ensures screen == Screen(buffer, style)
    {
      var index := 0;
      while index < |buffer|
        invariant 0 <= index <= |buffer| == |old(buffer)|
        invariant forall k :: 0 <= k < index ==> buffer[k] == Stamped(old(buffer)[k], target.id, time)
        invariant forall k :: index <= k < |buffer| ==> buffer[k] == old(buffer)[k]
        invariant lastNamespace == old(lastNamespace) && lastWasInfo == old(lastWasInfo)
        invariant nextId == old(nextId)
      {
        var chunk := buffer[index];
        if chunk.id == target.id {
          if IndexOf(chunk.message, TimeToken) >= 0 {
            chunk := chunk.(message := ReplaceFirst(chunk.message, TimeToken, time));
          }
          buffer := buffer[index := chunk];
        }
        index := index + 1;
      }
      screen := Flush();
    }

    /** `remove`: drop the object `target` from the buffer, then flush. */
    method Remove(target: Entry) returns (screen: string)
      requires Valid()
      modifies this
      ensures Valid() && nextId == old(nextId)
      ensures buffer == Without(old(buffer), target.id)
      ensures lastNamespace == old(lastNamespace) && lastWasInfo == old(lastWasInfo)
      ensures screen == Screen(buffer, style)
    {
      WithoutDistinct(buffer, target.id);
      WithoutSubset(buffer, target.id);
      ghost var before := buffer;
      buffer := Without(buffer, target.id);
      forall k | 0 <= k < |buffer| ensures buffer[k].id < nextId {
        assert buffer[k] in before;
      }
      screen := Flush();
    }
  }
}
