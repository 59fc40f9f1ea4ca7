/**
 * The load coordinator of loader.js (`Loader`): extension sniffing, the
 * dispatch of every manifest entry to a stylesheet or script injection, the
 * queue of script entries not yet loaded, and the completion callback that
 * runs when a script's load event empties that queue.
 *
 * Injecting an element into the document is an abstract `Injection` value; a
 * script's load event is a call of `ScriptLoaded` (the closure the source
 * attaches to the element); invoking the completion callback is recorded by
 * appending it to `invoked`.
 */
module AssetLoader {
  import opened Wrappers
  import Ajax

  const CSS: string := "css"
  const JS: string := "js"
  const MAIN_PATH: string := "./js/"

  /** Where the manifest is fetched from (`getDefinitionPath`). */
  const DEFINITION_PATH: string := MAIN_PATH + "./loadDefinition.json"

  /*********************************************************************
   * Extension sniffing
   *********************************************************************/

  /** `toLowerCase` on one character (ASCII letters only). */
  function LowerChar(c: char): char
  {
    if 'A' <= c <= 'Z' then (c as int + 32) as char else c
  }

  function Lower(s: string): (r: string)
    ensures |r| == |s|
  {
    if s == [] then []
    else Lower(s[..|s| - 1]) + [LowerChar(s[|s| - 1])]
  }

  /** `Lower` maps each character on its own. */
  lemma {:induction false} LowerAt(s: string)
    ensures forall i :: 0 <= i < |s| ==> Lower(s)[i] == LowerChar(s[i])
  {
    if s != [] {
      LowerAt(s[..|s| - 1]);
    }
  }

  /** The text after the last `.` of `s`, or all of `s` when it has none. */
  function AfterLastDot(s: string): (r: string)
    ensures |r| <= |s|
  {
    if s == [] then []
    else if s[|s| - 1] == '.' then []
    else AfterLastDot(s[..|s| - 1]) + [s[|s| - 1]]
  }

  /** It is a dot-free suffix of `s` that is all of `s` or follows a `.`. */
  lemma {:induction false} AfterLastDotIsSuffix(s: string)
    ensures var r := AfterLastDot(s);
      && r == s[|s| - |r|..]
      && '.' !in r
      && (|r| == |s| || s[|s| - |r| - 1] == '.')
  {
    if s != [] && s[|s| - 1] != '.' {
      AfterLastDotIsSuffix(s[..|s| - 1]);
    }
  }

  /** `getExtension`: `split('.').pop().toLowerCase()`; the result never holds a `.`. */
  function GetExtension(filename: string): (ext: string)
    ensures |ext| <= |filename|
    ensures '.' !in ext
  {
    var r := Lower(AfterLastDot(filename));
    AfterLastDotIsSuffix(filename);
    LowerAt(AfterLastDot(filename));
    assert forall i :: 0 <= i < |r| ==> r[i] != '.';
    r
  }

  /**
   * The extension is the lowercased suffix of the name that holds no `.` and
   * is either the whole name or preceded by a `.`.
   */
  lemma ExtensionIsLastSegment(filename: string)
    ensures var n := |GetExtension(filename)|;
      && GetExtension(filename) == Lower(filename[|filename| - n..])
      && '.' !in filename[|filename| - n..]
      && (n == |filename| || filename[|filename| - n - 1] == '.')
  {
    AfterLastDotIsSuffix(filename);
  }

  /**
   * That description determines the extension: any dot-free suffix that is
   * the whole name or follows a `.` gives it, lowercased.
   */
  lemma ExtensionUnique(filename: string, n: nat)
    requires n <= |filename|
    requires '.' !in filename[|filename| - n..]
    requires n == |filename| || filename[|filename| - n - 1] == '.'
    ensures GetExtension(filename) == Lower(filename[|filename| - n..])
  {
    AfterLastDotIsSuffix(filename);
  }

  /** A name without a `.` is its own (lowercased) extension. */
  lemma ExtensionWithoutDot(filename: string)
    requires '.' !in filename
    ensures GetExtension(filename) == Lower(filename)
  {
    ExtensionUnique(filename, |filename|);
    assert filename[0..] == filename;
  }

  /** An upper-case script name is still a script. */
  lemma UpperCaseScript()
    ensures GetExtension("APP.JS") == JS
  {
    ExtensionUnique("APP.JS", 2);
    assert "APP.JS"[4..] == "JS";
    LowerAt("JS");
  }

  /*********************************************************************
   * Dispatch
   *********************************************************************/

  /** An element put into the document head. */
  datatype Injection = Stylesheet(href: string) | Script(src: string)

  /** `loadFile`: `css` and `js` each have their injection; any other extension does nothing. */
  function LoadFile(filename: string): (r: Option<Injection>)
    ensures GetExtension(filename) == CSS ==> r == Some(Stylesheet(filename))
    ensures GetExtension(filename) == JS ==> r == Some(Script(filename))
    ensures GetExtension(filename) != CSS && GetExtension(filename) != JS ==> r == None
  {
    var extension := GetExtension(filename);
    if extension == CSS then Some(Stylesheet(filename))
    else if extension == JS then Some(Script(filename))
    else None
  }

  /** The injections `loadFiles` performs for a manifest, in manifest order. */
  function Injections(files: seq<string>): (r: seq<Injection>)
    ensures |r| <= |files|
  {
    if files == [] then []
    else
      var a := LoadFile(files[|files| - 1]);
      Injections(files[..|files| - 1]) + (if a.Some? then [a.value] else [])
  }

  /** The sources of the script injections, in order. */
  function Scripts(injections: seq<Injection>): seq<string>
  {
    if injections == [] then []
    else
      var last := injections[|injections| - 1];
      Scripts(injections[..|injections| - 1]) + (if last.Script? then [last.src] else [])
  }

  /*********************************************************************
   * The load queue
   *********************************************************************/

  /**
   * The script entries of a manifest. Each name occurs as often as in the
   * manifest if it is a script and not at all otherwise.
   */
  function ScriptFiles(files: seq<string>): (q: seq<string>)
    ensures |q| <= |files|
    ensures forall i :: 0 <= i < |q| ==> GetExtension(q[i]) == JS
  {
    if files == [] then []
    else
      var init, last := files[..|files| - 1], files[|files| - 1];
      ScriptFiles(init) + (if GetExtension(last) == JS then [last] else [])
  }

  lemma ScriptFilesSnoc(files: seq<string>, f: string)
    ensures ScriptFiles(files + [f]) == ScriptFiles(files) + (if GetExtension(f) == JS then [f] else [])
  {
    assert (files + [f])[..|files|] == files;
  }

  lemma InjectionsSnoc(files: seq<string>, f: string)
    ensures Injections(files + [f]) == Injections(files) + (if LoadFile(f).Some? then [LoadFile(f).value] else [])
  {
    assert (files + [f])[..|files|] == files;
  }

  /** Each script name is queued as often as the manifest lists it; no other name is. */
  lemma {:induction false} ScriptFilesCount(files: seq<string>, x: string)
    ensures multiset(ScriptFiles(files))[x] == if GetExtension(x) == JS then multiset(files)[x] else 0
  {
    if files != [] {
      var init, last := files[..|files| - 1], files[|files| - 1];
      assert files == init + [last];
      ScriptFilesCount(init, x);
    }
  }

  /**
   * The queue keeps manifest order: it is the manifest read at an increasing
   * sequence of positions, and those positions are exactly the script ones.
   */
  lemma {:induction false} ScriptFilesPositions(files: seq<string>) returns (idx: seq<nat>)
    ensures Picks(files, idx)
    ensures Increasing(idx)
    ensures Covers(files, idx)
  {
    if files == [] {
      idx := [];
    } else {
      var n := |files| - 1;
      var init, last := files[..n], files[n];
      assert files == init + [last];
      var prev := ScriptFilesPositions(init);
      idx := if GetExtension(last) == JS then prev + [n] else prev;
      if GetExtension(last) == JS {
        IncreasingSnoc(prev, n);
      }
      PicksSnoc(init, last, prev);
      CoversSnoc(init, last, prev);
    }
  }

  /** Entry `k` of the queue of `files` is the manifest entry at position `idx[k]`. */
  ghost predicate Picks(files: seq<string>, idx: seq<nat>)
  {
    && |idx| == |ScriptFiles(files)|
    && forall k :: 0 <= k < |idx| ==> idx[k] < |files| && ScriptFiles(files)[k] == files[idx[k]]
  }

  /** Every script entry of `files` has its position in `idx`. */
  ghost predicate Covers(files: seq<string>, idx: seq<nat>)
  {
    forall j :: 0 <= j < |files| && GetExtension(files[j]) == JS ==> j in idx
  }

  /** `idx` is strictly increasing. */
  ghost predicate Increasing(idx: seq<nat>)
  {
    forall k, l :: 0 <= k < l < |idx| ==> idx[k] < idx[l]
  }

  lemma IncreasingSnoc(prev: seq<nat>, n: nat)
    requires Increasing(prev)
    requires forall k :: 0 <= k < |prev| ==> prev[k] < n
    ensures Increasing(prev + [n])
  {
  }

  lemma PicksSnoc(init: seq<string>, last: string, prev: seq<nat>)
    requires Picks(init, prev)
    ensures Picks(init + [last], if GetExtension(last) == JS then prev + [|init|] else prev)
  {
    var files := init + [last];
    ScriptFilesSnoc(init, last);
    forall k | 0 <= k < |prev| ensures files[prev[k]] == init[prev[k]] {
    }
  }

  lemma CoversSnoc(init: seq<string>, last: string, prev: seq<nat>)
    requires Covers(init, prev)
    ensures Covers(init + [last], if GetExtension(last) == JS then prev + [|init|] else prev)
  {
    var files := init + [last];
    forall j | 0 <= j < |init| ensures files[j] == init[j] {
    }
  }

  /**
   * `getLoadQueue`: copies every script entry, in order, to the next free
   * slot of the result. The manifest itself is a value and is left as it is.
   */
  method GetLoadQueue(files: seq<string>) returns (result: seq<string>)
    ensures result == ScriptFiles(files)
  {
    result := [];
    var counter := 0;
    var i := 0;
    while i < |files|
      invariant 0 <= i <= |files|
      invariant counter == |result|
      invariant result == ScriptFiles(files[..i])
    {
      var filename := files[i];
      if GetExtension(filename) == JS {
        result := result + [filename];
        counter := counter + 1;
      }
      assert files[..i + 1] == files[..i] + [filename];
      ScriptFilesSnoc(files[..i], filename);
      i := i + 1;
    }
    assert files[..|files|] == files;
  }

  lemma ScriptsSnoc(injections: seq<Injection>, a: Injection)
    ensures Scripts(injections + [a]) == Scripts(injections) + (if a.Script? then [a.src] else [])
  {
    assert (injections + [a])[..|injections|] == injections;
  }

  /** The scripts injected for a manifest are exactly its queue, in the same order. */
  lemma {:induction false} ScriptInjectionsAreQueue(files: seq<string>)
    ensures Scripts(Injections(files)) == ScriptFiles(files)
  {
    if files != [] {
      var init, last := files[..|files| - 1], files[|files| - 1];
      ScriptInjectionsAreQueue(init);
      var a := LoadFile(last);
      match a
      case None =>
        assert Injections(files) == Injections(init);
        assert ScriptFiles(files) == ScriptFiles(init);
      case Some(inj) =>
        assert Injections(files) == Injections(init) + [inj];
        ScriptsSnoc(Injections(init), inj);
        assert inj.Script? <==> GetExtension(last) == JS;
    }
  }

  /** A stylesheet is injected but never queued, so its load is never awaited. */
  lemma {:induction false} StylesheetsUntracked(files: seq<string>)
    ensures forall i :: 0 <= i < |Injections(files)| && Injections(files)[i].Stylesheet? ==>
              Injections(files)[i].href !in ScriptFiles(files)
  {
    forall i | 0 <= i < |Injections(files)| && Injections(files)[i].Stylesheet?
      ensures Injections(files)[i].href !in ScriptFiles(files)
    {
      StylesheetIsCss(files, i);
      var h := Injections(files)[i].href;
      ScriptFilesCount(files, h);
      assert multiset(ScriptFiles(files))[h] == 0;
    }
  }

  lemma {:induction false} StylesheetIsCss(files: seq<string>, i: nat)
    requires i < |Injections(files)| && Injections(files)[i].Stylesheet?
    ensures GetExtension(Injections(files)[i].href) == CSS
  {
    var init, last := files[..|files| - 1], files[|files| - 1];
    if i < |Injections(init)| {
      StylesheetIsCss(init, i);
    }
  }

  /**
   * The queue after `file` completes: its first occurrence is taken out; a
   * name not in the queue leaves it as it is.
   */
  function RemoveFirst(q: seq<string>, x: string): (r: seq<string>)
    ensures x !in q ==> r == q
    ensures x in q ==> |r| == |q| - 1
  {
    if q == [] then []
    else if q[0] == x then q[1..]
    else [q[0]] + RemoveFirst(q[1..], x)
  }

  /** Exactly one occurrence of `x` leaves the queue, and nothing else does. */
  lemma {:induction false} RemoveFirstMultiset(q: seq<string>, x: string)
    ensures multiset(RemoveFirst(q, x)) == multiset(q) - multiset{x}
  {
    if q != [] {
      assert q == [q[0]] + q[1..];
      if q[0] != x {
        RemoveFirstMultiset(q[1..], x);
      }
    }
  }

  /** Removal deletes the first position holding `x`; the rest keep their order. */
  lemma {:induction false} RemoveFirstAt(q: seq<string>, x: string, i: nat)
    requires i < |q| && q[i] == x && x !in q[..i]
    ensures RemoveFirst(q, x) == q[..i] + q[i + 1..]
  {
    if i > 0 {
      assert q[1..][..i - 1] == q[1..i];
      RemoveFirstAt(q[1..], x, i - 1);
      assert q[1..][i..] == q[i + 1..];
    }
  }

  /** The callback fires on this event: `file` is queued and removing it empties the queue. */
  predicate Empties(q: seq<string>, file: string)
  {
    file in q && RemoveFirst(q, file) == []
  }

  /**
   * The state of the search for `x` after looking at the first `i` entries:
   * not found yet (`-1`), or found at its first position.
   */
  predicate Searched(q: seq<string>, x: string, i: nat, position: int)
  {
    if position == -1 then i <= |q| && x !in q[..i]
    else 0 <= position < |q| && q[position] == x && x !in q[..position]
  }

  /*********************************************************************
   * A loading session
   *********************************************************************/

  /** An opaque token for the completion callback a caller supplies. */
  datatype Callback = Callback(id: nat)

  class Loader {
    /** Script entries not yet loaded in the current session. */
    var loadQueue: seq<string>
    /** The callback slot; `None` before the first session (`null`). */
    var onSuccess: Option<Callback>
    /** The callbacks invoked so far, in order. */
    var invoked: seq<Callback>

    /** Only a session, which sets the callback, fills the queue. */
    ghost predicate Valid()
      reads this
    {
      loadQueue != [] ==> onSuccess.Some?
    }

    constructor ()
      ensures Valid()
      ensures loadQueue == [] && onSuccess == None && invoked == []
    {
      loadQueue := [];
      onSuccess := None;
      invoked := [];
    }

    /**
     * `loadFiles`, from the moment the manifest is in hand: the queue is
     * rebuilt from it, the callback slot is overwritten, and every entry is
     * dispatched in manifest order.
     */
    method LoadFiles(files: seq<string>, cb: Callback) returns (injections: seq<Injection>)
      modifies this`loadQueue, this`onSuccess
      ensures Valid()
      ensures loadQueue == ScriptFiles(files) && onSuccess == Some(cb)
      ensures injections == Injections(files)
    {
      var queue := GetLoadQueue(files);
      loadQueue := queue;
      onSuccess := Some(cb);
      injections := [];
      var nFiles := |files|;
      for i := 0 to nFiles
        invariant loadQueue == queue && onSuccess == Some(cb)
        invariant injections == Injections(files[..i])
      {
        var filename := files[i];
        var a := LoadFile(filename);
        if a.Some? {
          injections := injections + [a.value];
        }
        assert files[..i + 1] == files[..i] + [filename];
        InjectionsSnoc(files[..i], filename);
      }
      assert files[..nFiles] == files;
    }

    /**
     * `updateQueueState`: finds the first queued `file`, takes it out, and
     * invokes `cb` if that emptied the queue. An unqueued name changes nothing.
     */
    method UpdateQueueState(file: string, cb: Callback)
      modifies this`loadQueue, this`invoked
      ensures loadQueue == RemoveFirst(old(loadQueue), file)
      ensures invoked == old(invoked) + (if Empties(old(loadQueue), file) then [cb] else [])
    {
      var nFiles := |loadQueue|;
      var position := -1;
      var i := 0;
      while i < nFiles
        invariant loadQueue == old(loadQueue) && invoked == old(invoked)
        invariant 0 <= i <= nFiles == |loadQueue|
        invariant Searched(loadQueue, file, i, position)
      {
        if loadQueue[i] == file {
          position := i;
          break;
        }
        assert loadQueue[..i + 1] == loadQueue[..i] + [loadQueue[i]];
        i := i + 1;
      }
      if position != -1 {
        RemoveFirstAt(loadQueue, file, position);
        loadQueue := loadQueue[..position] + loadQueue[position + 1..];
        if |loadQueue| == 0 {
          invoked := invoked + [cb];
        }
      } else {
        assert loadQueue[..nFiles] == loadQueue;
      }
    }

    /** The load handler attached to a script element: `updateQueueState(filename, this.onSuccess)`. */
    method ScriptLoaded(file: string)
      requires Valid()
      modifies this`loadQueue, this`invoked
      ensures Valid()
      ensures loadQueue == RemoveFirst(old(loadQueue), file)
      ensures invoked == old(invoked) + (if Empties(old(loadQueue), file) then [onSuccess.value] else [])
    {
      match onSuccess
      case Some(cb) =>
        UpdateQueueState(file, cb);
      case None =>
    }

    /**
     * The browser delivering `events`, one script load after another, to
     * `ScriptLoaded`: the queue is the one `Drain` describes, and the stored
     * callback is invoked once per position of `FireIndices`. When the events
     * are the queued scripts in any order, that is exactly one invocation.
     */
    method ReportLoads(events: seq<string>)
      requires Valid()
      modifies this`loadQueue, this`invoked
      ensures Valid()
      ensures loadQueue == Drain(old(loadQueue), events)
      ensures |invoked| == |old(invoked)| + |FireIndices(old(loadQueue), events)|
      ensures invoked[..|old(invoked)|] == old(invoked)
      ensures forall k :: |old(invoked)| <= k < |invoked| ==> onSuccess == Some(invoked[k])
      ensures old(loadQueue) != [] && multiset(events) == multiset(old(loadQueue)) ==>
                invoked == old(invoked) + [onSuccess.value]
    {
      ghost var q0, log0 := loadQueue, invoked;
      for i := 0 to |events|
        invariant Valid()
        invariant loadQueue == Drain(q0, events[..i])
        invariant |invoked| == |log0| + |FireIndices(q0, events[..i])|
        invariant invoked[..|log0|] == log0
        invariant forall k :: |log0| <= k < |invoked| ==> onSuccess == Some(invoked[k])
      {
        assert events[..i + 1][..i] == events[..i];
        ScriptLoaded(events[i]);
      }
      assert events[..|events|] == events;
      if q0 != [] && multiset(events) == multiset(q0) {
        CallbackFiresOnce(q0, events);
      }
    }
  }

  /** The queue after a sequence of completion events. */
  function Drain(q: seq<string>, events: seq<string>): seq<string>
  {
    if events == [] then q
    else RemoveFirst(Drain(q, events[..|events| - 1]), events[|events| - 1])
  }

  /** The positions of the completion events on which the callback fires. */
  function FireIndices(q: seq<string>, events: seq<string>): seq<nat>
  {
    if events == [] then []
    else
      var n := |events| - 1;
      FireIndices(q, events[..n]) + (if Empties(Drain(q, events[..n]), events[n]) then [n] else [])
  }

  /** The queue only shrinks: every event removes at most one queued entry. */
  lemma {:induction false} QueueOnlyShrinks(q: seq<string>, events: seq<string>)
    ensures multiset(Drain(q, events)) <= multiset(q)
    ensures |q| - |events| <= |Drain(q, events)| <= |q|
  {
    if events != [] {
      QueueOnlyShrinks(q, events[..|events| - 1]);
      RemoveFirstMultiset(Drain(q, events[..|events| - 1]), events[|events| - 1]);
    }
  }

  /** While every event names a still-queued script, each removes exactly its own entry. */
  lemma {:induction false} DrainCounts(q: seq<string>, events: seq<string>)
    requires multiset(events) <= multiset(q)
    ensures multiset(Drain(q, events)) == multiset(q) - multiset(events)
    ensures |Drain(q, events)| == |q| - |events|
  {
    if events != [] {
      var n := |events| - 1;
      var init, e := events[..n], events[n];
      assert events == init + [e];
      assert multiset(events) == multiset(init) + multiset{e};
      DrainCounts(q, init);
      var d := Drain(q, init);
      assert multiset(d)[e] == multiset(q)[e] - multiset(init)[e] > 0;
      assert e in d;
      RemoveFirstMultiset(d, e);
    }
  }

  /** Before the last queued script completes, the callback does not fire. */
  lemma {:induction false} NoFireBeforeLast(q: seq<string>, events: seq<string>)
    requires multiset(events) <= multiset(q) && |events| < |q|
    ensures FireIndices(q, events) == []
  {
    if events != [] {
      var n := |events| - 1;
      var init := events[..n];
      assert events == init + [events[n]];
      assert multiset(init) <= multiset(events);
      NoFireBeforeLast(q, init);
      DrainCounts(q, events);
    }
  }

  /**
   * When each queued script completes once, in any order, the callback fires
   * exactly once, on the last completion.
   */
  lemma {:induction false} CallbackFiresOnce(q: seq<string>, events: seq<string>)
    requires q != [] && multiset(events) == multiset(q)
    ensures FireIndices(q, events) == [|events| - 1]
  {
    assert |events| == |multiset(events)| == |q|;
    var n := |events| - 1;
    var init, e := events[..n], events[n];
    assert events == init + [e];
    assert multiset(events) == multiset(init) + multiset{e};
    NoFireBeforeLast(q, init);
    DrainCounts(q, init);
    DrainCounts(q, events);
    var d := Drain(q, init);
    assert multiset(d)[e] == multiset(q)[e] - multiset(init)[e] > 0;
  }

  /** After the queue is empty, further completion events change nothing. */
  lemma {:induction false} LateEventsIgnored(q: seq<string>, events: seq<string>, more: seq<string>)
    requires Drain(q, events) == []
    ensures Drain(q, events + more) == []
    ensures FireIndices(q, events + more) == FireIndices(q, events)
  {
    if more != [] {
      var n := |more| - 1;
      LateEventsIgnored(q, events, more[..n]);
      assert (events + more)[..|events| + n] == events + more[..n];
    } else {
      assert events + more == events;
    }
  }

  /**
   * A whole session: if every injected script reports its load once, in any
   * order, and the manifest has a script, the callback fires exactly once,
   * on the last report; stylesheets take no part.
   */
  lemma SessionCompletesOnce(files: seq<string>, events: seq<string>)
    requires ScriptFiles(files) != []
    requires multiset(events) == multiset(Scripts(Injections(files)))
    ensures FireIndices(ScriptFiles(files), events) == [|events| - 1]
  {
    ScriptInjectionsAreQueue(files);
    CallbackFiresOnce(ScriptFiles(files), events);
  }

  /** A manifest without scripts leaves the queue empty, so the callback never fires. */
  lemma {:induction false} NoScriptsNoCallback(q: seq<string>, events: seq<string>)
    requires q == []
    ensures FireIndices(q, events) == []
  {
    if events != [] {
      NoScriptsNoCallback(q, events[..|events| - 1]);
      QueueOnlyShrinks(q, events[..|events| - 1]);
    }
  }

  /**
   * The example manifest: the stylesheet is injected and never awaited, and
   * the callback runs once, after both scripts, whatever their order.
   */
  method LoadingScenario() returns (queue: seq<string>, injections: seq<Injection>, calls: seq<Callback>)
    ensures queue == ["app.js", "vendor.js"]
    ensures injections == [Script("app.js"), Stylesheet("style.css"), Script("vendor.js")]
    ensures calls == [Callback(1)]
  {
    var loader := new Loader();
    ScenarioExtensions();
    injections := loader.LoadFiles(["app.js", "style.css", "vendor.js"], Callback(1));
    queue := loader.loadQueue;
    loader.ScriptLoaded("vendor.js");
    loader.ScriptLoaded("app.js");
    calls := loader.invoked;
  }

  lemma ScenarioExtensions()
    ensures GetExtension("app.js") == JS
    ensures GetExtension("vendor.js") == JS
    ensures GetExtension("style.css") == CSS
  {
    ExtensionUnique("app.js", 2);
    assert "app.js"[4..] == "js";
    ExtensionUnique("vendor.js", 2);
    assert "vendor.js"[7..] == "js";
    ExtensionUnique("style.css", 3);
    assert "style.css"[6..] == "css";
    LowerAt("js");
    LowerAt("css");
  }

  /*********************************************************************
   * Fetching the manifest
   *********************************************************************/

  /**
   * The manifest request as `loadFiles` issues it: the continuation stands in
   * the parameters slot of `get`, so the request carries no parameters (a
   * function has no own enumerable property) and no success continuation.
   */
  method RequestManifestAsWritten(engine: Ajax.AjaxEngine) returns (req: Ajax.Request)
    modifies engine`xhrs
    ensures req.url == Ajax.ResolveUrl(engine.appUrl, DEFINITION_PATH) && req.body == ""
    ensures !req.hasOnSuccess && !req.hasOnError
  {
    req := engine.Get(DEFINITION_PATH, [], false, false);
  }

  /** The manifest request with the continuation in the success slot. */
  method RequestManifest(engine: Ajax.AjaxEngine) returns (req: Ajax.Request)
    modifies engine`xhrs
    ensures req.url == Ajax.ResolveUrl(engine.appUrl, DEFINITION_PATH) && req.body == ""
    ensures req.hasOnSuccess && !req.hasOnError
  {
    req := engine.Get(DEFINITION_PATH, [], true, false);
  }

  /**
   * As written, no response to the manifest request reaches the loader, not
   * even a 200: no session ever starts.
   */
  lemma {:induction false} ManifestNeverDelivered(trace: seq<Ajax.Transport>)
    ensures Ajax.Calls(trace, false, false) == []
  {
    if trace != [] {
      ManifestNeverDelivered(trace[..|trace| - 1]);
    }
  }

  /**
   * With the continuation in the success slot, a request whose handler sees
   * the terminal ready-state once, with 200 or 202, delivers the manifest
   * exactly once.
   */
  lemma ManifestDelivered(trace: seq<Ajax.Transport>, p: nat)
    requires Ajax.LoadedOnce(trace) && p < |trace|
    requires trace[p].readyState == Ajax.STATE_LOADED
    requires trace[p].status in Ajax.SUCCESS_STATUSES
    ensures Ajax.Calls(trace, true, false) == [Ajax.CallSuccess]
  {
    Ajax.AtMostOneCall(trace, true, false);
  }
}
