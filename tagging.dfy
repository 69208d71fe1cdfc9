/** Control messages are text of the form `type:data`. Both receivers split
    the message with Python's `str.split(':')` and take field 0 as the type
    and field 1 as the data, so data holding a ':' is cut short and a
    message with no ':' at all raises `IndexError`. */
module Tagging {
  import opened Common
  import opened Inventory

  /** The index of the first ':' in `s`, if any. */
  function FirstColon(s: string): (r: Option<nat>)
    ensures r.None? ==> forall i :: 0 <= i < |s| ==> s[i] != ':'
    ensures r.Some? ==> r.value < |s| && s[r.value] == ':' && forall i :: 0 <= i < r.value ==> s[i] != ':'
  {
    if s == [] then None
    else if s[0] == ':' then Some(0)
    else match FirstColon(s[1..])
      case None => None
      case Some(k) => Some(k + 1)
  }

  /** A ':' with none before it is the first. */
  lemma FirstColonAt(s: string, k: nat)
    requires k < |s| && s[k] == ':' && forall i :: 0 <= i < k ==> s[i] != ':'
    ensures FirstColon(s) == Some(k)
  {
  }

  /** `s.split(':')`. */
  function Split(s: string): (fields: seq<string>)
    ensures |fields| >= 1
    decreases |s|
  {
    match FirstColon(s)
    case None => [s]
    case Some(k) => [s[..k]] + Split(s[k + 1..])
  }

  /** `':'.join(fields)`. */
  function Join(fields: seq<string>): string
    requires |fields| >= 1
  {
    if |fields| == 1 then fields[0] else fields[0] + ":" + Join(fields[1..])
  }

  /** A field without ':' in front of a ':' splits off as the first field. */
  lemma SplitCons(a: string, rest: string)
    requires ':' !in a
    ensures Split(a + ":" + rest) == [a] + Split(rest)
  {
    var s := a + ":" + rest;
    assert s[|a|] == ':' && forall i :: 0 <= i < |a| ==> s[i] == a[i];
    FirstColonAt(s, |a|);
    assert s[..|a|] == a && s[|a| + 1..] == rest;
  }

  /** Text without ':' is one field. */
  lemma SplitNone(a: string)
    requires ':' !in a
    ensures Split(a) == [a]
  {
    forall i | 0 <= i < |a| ensures a[i] != ':' {
      assert a[i] in a;
    }
  }

  /** No field of a split holds a ':'. */
  lemma {:induction false} SplitFields(s: string)
    ensures forall i :: 0 <= i < |Split(s)| ==> ':' !in Split(s)[i]
    decreases |s|
  {
    match FirstColon(s)
    case None =>
    case Some(k) =>
      SplitFields(s[k + 1..]);
      var f := Split(s);
      forall i | 0 <= i < |f| ensures ':' !in f[i] {
        if i > 0 {
          assert f[i] == Split(s[k + 1..])[i - 1];
        }
      }
  }

  /** Joining the fields gives back the message. */
  lemma {:induction false} SplitJoin(s: string)
    ensures Join(Split(s)) == s
    decreases |s|
  {
    match FirstColon(s)
    case None =>
    case Some(k) =>
      SplitJoin(s[k + 1..]);
      assert Split(s)[1..] == Split(s[k + 1..]);
      assert s == s[..k] + ":" + s[k + 1..];
  }

  /** Fields without ':' split back out of their join. */
  lemma {:induction false} JoinSplit(fields: seq<string>)
    requires |fields| >= 1 && forall i :: 0 <= i < |fields| ==> ':' !in fields[i]
    ensures Split(Join(fields)) == fields
    decreases |fields|
  {
    if |fields| > 1 {
      SplitCons(fields[0], Join(fields[1..]));
      assert forall i :: 0 <= i < |fields[1..]| ==> fields[1..][i] == fields[i + 1];
      JoinSplit(fields[1..]);
    } else {
      SplitNone(fields[0]);
    }
  }

  /** How a sender tags a message: `type + ':' + data`. */
  function Tag(kind: string, data: string): string {
    kind + ":" + data
  }

  /** `message_type` and `message_data`: fields 0 and 1 of the split, or
      `None` where reading field 1 raises `IndexError`. */
  function Untag(m: string): Option<(string, string)> {
    var f := Split(m);
    if |f| >= 2 then Some((f[0], f[1])) else None
  }

  /** Untagging fails exactly on a message without ':'; otherwise the type
      is the text before the first ':' and the data runs from there to the
      second ':' or the end. */
  lemma UntagMeaning(m: string)
    ensures Untag(m).None? <==> ':' !in m
    ensures Untag(m).Some? ==>
      var (t, d) := Untag(m).value;
      && ':' !in t && ':' !in d
      && Tag(t, d) <= m
      && (|m| == |Tag(t, d)| || m[|Tag(t, d)|] == ':')
  {
    SplitFields(m);
    match FirstColon(m)
    case None =>
      SplitNone(m);
    case Some(k) =>
      var t, r := m[..k], m[k + 1..];
      assert m == t + ":" + r;
      assert ':' in m;
      assert Split(m) == [t] + Split(r);
      match FirstColon(r)
      case None =>
        assert Split(r) == [r];
        assert Untag(m) == Some((t, r));
      case Some(k2) =>
        assert Split(r)[0] == r[..k2];
        assert Untag(m) == Some((t, r[..k2]));
        assert Tag(t, r[..k2]) == m[..k + 1 + k2];
        assert m[k + 1 + k2] == r[k2];
  }

  /** Type and data travel intact when neither holds a ':'. */
  lemma TagRoundTrip(kind: string, data: string)
    requires ':' !in kind && ':' !in data
    ensures Untag(Tag(kind, data)) == Some((kind, data))
  {
    JoinSplit([kind, data]);
    assert Join([kind, data]) == Tag(kind, data);
  }

  /** Data holding a ':' arrives cut at its first ':'. */
  lemma TagTruncates(kind: string, head: string, tail: string)
    requires ':' !in kind && ':' !in head
    ensures Untag(Tag(kind, head + ":" + tail)) == Some((kind, head))
  {
    var f := Split(tail);
    SplitJoin(tail);
    SplitFields(tail);
    JoinSplit([kind, head] + f);
    assert Join([kind, head] + f) == Tag(kind, head + ":" + tail) by {
      assert ([kind, head] + f)[1..] == [head] + f;
      assert ([head] + f)[1..] == f;
    }
  }

  // ---------------------------------------------------------------------
  // The client's dispatch

  /** What the client does with a message. */
  datatype Command = FetchRequest(data: string) | SyncDone | Ignore

  /** The client's dispatch on the type: `filerequest` and `sync` are acted
      on, every other type is skipped. `None` is the `IndexError` of a
      message without ':'. */
  function ClientCommand(m: string): Option<Command> {
    match Untag(m)
    case None => None
    case Some((t, d)) =>
      Some(if t == "filerequest" then FetchRequest(d) else if t == "sync" then SyncDone else Ignore)
  }

  /** The client's reading of what the server sends: a file request carries
      its data, `sync:done` ends the dialogue, and any other well-formed
      message is ignored. */
  lemma ClientCommandOfTagged(kind: string, data: string)
    requires ':' !in kind && ':' !in data
    ensures ClientCommand(Tag(kind, data)) ==
      Some(if kind == "filerequest" then FetchRequest(data) else if kind == "sync" then SyncDone else Ignore)
  {
    TagRoundTrip(kind, data);
  }

  /** An entry as the Python list `[root, file, md5]`. */
  function Fields(e: Entry): seq<string> {
    [e.location, e.name, e.hash]
  }

  /** `file_data[0][0]` and `file_data[0][1]` of a parsed request: the
      folder and the name of the file to upload, or `None` where the
      indexing raises. */
  function RequestTarget(v: seq<seq<string>>): (r: Option<(string, string)>)
    ensures r.Some? <==> |v| >= 1 && |v[0]| >= 2
    ensures r.Some? ==> r.value == (v[0][0], v[0][1])
  {
    if |v| >= 1 && |v[0]| >= 2 then Some((v[0][0], v[0][1])) else None
  }

  /** The one-element list the server puts in a request yields the
      requested entry's folder and name. */
  lemma RequestTargetOfEntry(e: Entry)
    ensures RequestTarget([Fields(e)]) == Some((e.location, e.name))
  {
  }
}
