/**
 * The request engine of loader.js (`AjaxEngine`): a pool of reusable transport
 * handles, the `key=value&...` parameter encoding, the optional application
 * base URL, and the classification of a finished response into the success
 * or the error continuation.
 *
 * A transport handle is abstracted to the two things the engine reads from it,
 * its ready-state and its HTTP status. The network itself is the host's: it is
 * represented only by `Finish`, the step in which the host brings a handle to
 * the terminal ready-state with some status.
 */
module Ajax {
  import opened Wrappers

  /** The terminal ready-state (`STATE_LOADED`). */
  const STATE_LOADED: int := 4
  /** Ready-state of a transport that was just created. */
  const UNSENT: int := 0
  /** Ready-state of a transport after `open` was called on it. */
  const OPENED: int := 1

  /** HTTP statuses that take the success path. */
  const SUCCESS_STATUSES: set<int> := {200, 202}

  /** Header value sent with every POST request. */
  const FORM_CONTENT_TYPE: string := "application/x-www-form-urlencoded"

  datatype Method = GET | POST

  /** A pooled transport handle, seen through its ready-state and status. */
  datatype Transport = Transport(readyState: int, status: int)

  /** The handle a fresh `new XMLHttpRequest()` gives. */
  const NEW_TRANSPORT: Transport := Transport(UNSENT, 0)

  /*********************************************************************
   * Transport pool
   *********************************************************************/

  /** Index of the last handle of the pool that is in the terminal ready-state. */
  function LastLoaded(pool: seq<Transport>): (r: Option<nat>)
    ensures r.Some? ==> r.value < |pool| && pool[r.value].readyState == STATE_LOADED
    ensures r.Some? ==> forall j :: r.value < j < |pool| ==> pool[j].readyState != STATE_LOADED
    ensures r.None? <==> forall j :: 0 <= j < |pool| ==> pool[j].readyState != STATE_LOADED
  {
    if pool == [] then None
    else if pool[|pool| - 1].readyState == STATE_LOADED then Some(|pool| - 1)
    else LastLoaded(pool[..|pool| - 1])
  }

  /**
   * What acquiring a handle does to the pool: the last loaded handle is reused
   * and the pool is left as it is; without one, a new handle is appended and
   * returned. Existing handles are never removed or reordered.
   */
  function Acquire(pool: seq<Transport>): (r: (nat, seq<Transport>))
    ensures r.0 < |r.1|
    ensures |pool| <= |r.1| <= |pool| + 1 && r.1[..|pool|] == pool
    ensures (exists j :: 0 <= j < |pool| && pool[j].readyState == STATE_LOADED) ==>
              r.1 == pool && pool[r.0].readyState == STATE_LOADED &&
              forall j :: r.0 < j < |pool| ==> pool[j].readyState != STATE_LOADED
    ensures (forall j :: 0 <= j < |pool| ==> pool[j].readyState != STATE_LOADED) ==>
              r.1 == pool + [NEW_TRANSPORT] && r.0 == |pool|
  {
    match LastLoaded(pool)
    case Some(i) => (i, pool)
    case None => (|pool|, pool + [NEW_TRANSPORT])
  }

  /** The pool after a handle is acquired and `open` is called on it. */
  function OpenOn(pool: seq<Transport>): (r: (nat, seq<Transport>))
  {
    var (h, p) := Acquire(pool);
    (h, p[h := Transport(OPENED, 0)])
  }

  /**
   * A handle that has been opened and has not yet finished is never handed
   * out again: two requests in flight never share a transport.
   */
  lemma InFlightHandleNotReused(pool: seq<Transport>)
    ensures OpenOn(pool).0 != Acquire(OpenOn(pool).1).0
    ensures |OpenOn(pool).1| <= |Acquire(OpenOn(pool).1).1|
  {
    var (h, p) := OpenOn(pool);
    assert p[h].readyState != STATE_LOADED;
  }

  /*********************************************************************
   * Parameter encoding
   *********************************************************************/

  /**
   * One enumerable property of the parameter object, its value already in
   * string form. `own` is false for a property inherited from a prototype,
   * which `for..in` visits and `hasOwnProperty` filters out.
   */
  datatype Property = Property(key: string, value: string, own: bool)

  function Field(p: Property): string
  {
    p.key + "=" + p.value
  }

  /** The `key=value` fields of the own properties, in iteration order. */
  function OwnFields(params: seq<Property>): (fs: seq<string>)
    ensures |fs| <= |params|
  {
    if params == [] then []
    else
      var last := params[|params| - 1];
      OwnFields(params[..|params| - 1]) + (if last.own then [Field(last)] else [])
  }

  /** The key/value pairs of the own properties, in iteration order. */
  function OwnPairs(params: seq<Property>): (ps: seq<(string, string)>)
    ensures |ps| == |OwnFields(params)|
  {
    if params == [] then []
    else
      var last := params[|params| - 1];
      OwnPairs(params[..|params| - 1]) + (if last.own then [(last.key, last.value)] else [])
  }

  /** `fields` joined by `&`. */
  function JoinAmp(fields: seq<string>): string
  {
    if fields == [] then ""
    else if |fields| == 1 then fields[0]
    else fields[0] + "&" + JoinAmp(fields[1..])
  }

  /** The encoding of a parameter object: its own fields joined by `&`. */
  function Encoded(params: seq<Property>): string
  {
    JoinAmp(OwnFields(params))
  }

  /** The string the loop of `URLEncode` builds: every own field followed by `&`. */
  function Accumulated(params: seq<Property>): string
  {
    if params == [] then ""
    else
      var last := params[|params| - 1];
      Accumulated(params[..|params| - 1]) + (if last.own then Field(last) + "&" else "")
  }

  lemma {:induction false} JoinAmpSnoc(fs: seq<string>, f: string)
    requires fs != []
    ensures JoinAmp(fs + [f]) == JoinAmp(fs) + "&" + f
  {
    if |fs| == 1 {
      assert fs + [f] == [fs[0], f];
    } else {
      assert (fs + [f])[1..] == fs[1..] + [f];
      JoinAmpSnoc(fs[1..], f);
    }
  }

  /** The accumulated string is the encoding with one trailing `&`, or empty. */
  lemma {:induction false} AccumulatedIsEncodedWithAmp(params: seq<Property>)
    ensures Accumulated(params) == if OwnFields(params) == [] then "" else Encoded(params) + "&"
  {
    if params != [] {
      var init, last := params[..|params| - 1], params[|params| - 1];
      AccumulatedIsEncodedWithAmp(init);
      if last.own {
        assert OwnFields(params) == OwnFields(init) + [Field(last)];
        if OwnFields(init) == [] {
          assert OwnFields(params) == [Field(last)];
        } else {
          JoinAmpSnoc(OwnFields(init), Field(last));
        }
      } else {
        assert OwnFields(params) == OwnFields(init);
      }
    }
  }

  /**
   * `URLEncode`: appends `key=value&` for every own property and then drops
   * the last character. `substr(0, -1)` on the empty string gives the empty
   * string, so an object without own properties encodes to `""`.
   */
  method URLEncode(params: seq<Property>) returns (encoded: string)
    ensures encoded == Encoded(params)
  {
    var result := "";
    var i := 0;
    while i < |params|
      invariant 0 <= i <= |params|
      invariant result == Accumulated(params[..i])
    {
      if params[i].own {
        result := result + params[i].key + "=" + params[i].value + "&";
      }
      assert params[..i + 1][..i] == params[..i];
      i := i + 1;
    }
    assert params[..|params|] == params;
    AccumulatedIsEncodedWithAmp(params);
    encoded := if |result| == 0 then "" else result[..|result| - 1];
  }

  /** The encoding is empty exactly when the object has no own property. */
  lemma {:induction false} EncodedEmptyIff(params: seq<Property>)
    ensures Encoded(params) == "" <==> OwnFields(params) == []
  {
    var fs := OwnFields(params);
    if fs != [] {
      OwnFieldsHaveEquals(params);
      assert '=' in fs[0];
      if |fs| > 1 {
        assert JoinAmp(fs) == fs[0] + "&" + JoinAmp(fs[1..]);
      }
      assert |JoinAmp(fs)| >= |fs[0]| > 0;
    }
  }

  lemma {:induction false} OwnFieldsHaveEquals(params: seq<Property>)
    ensures forall i :: 0 <= i < |OwnFields(params)| ==> '=' in OwnFields(params)[i]
  {
    if params != [] {
      var init, last := params[..|params| - 1], params[|params| - 1];
      OwnFieldsHaveEquals(init);
      assert (Field(last))[|last.key|] == '=';
    }
  }

  /*********************************************************************
   * A reference decoder, to state what the encoding keeps and loses
   *********************************************************************/

  /** `s` cut at every occurrence of `c` (as `String.prototype.split`). */
  function SplitOn(s: string, c: char): (parts: seq<string>)
    ensures |parts| >= 1
  {
    if s == [] then [""]
    else
      var rest := SplitOn(s[1..], c);
      if s[0] == c then [""] + rest
      else [[s[0]] + rest[0]] + rest[1..]
  }

  /** `s` cut at its first `c`; without a `c` the whole of `s` is the first part. */
  function SplitFirst(s: string, c: char): (string, string)
  {
    if s == [] then ("", "")
    else if s[0] == c then ("", s[1..])
    else
      var kv := SplitFirst(s[1..], c);
      ([s[0]] + kv.0, kv.1)
  }

  function DecodeFields(fields: seq<string>): (ps: seq<(string, string)>)
    ensures |ps| == |fields|
  {
    if fields == [] then []
    else DecodeFields(fields[..|fields| - 1]) + [SplitFirst(fields[|fields| - 1], '=')]
  }

  /** Reads an encoded parameter string back into key/value pairs. */
  function Decode(s: string): seq<(string, string)>
  {
    if s == "" then [] else DecodeFields(SplitOn(s, '&'))
  }

  /** A property the encoding can carry without loss: no separator in it. */
  predicate Unreserved(p: Property)
  {
    '&' !in p.key && '=' !in p.key && '&' !in p.value
  }

  lemma {:induction false} SplitOnWithout(f: string, c: char)
    requires c !in f
    ensures SplitOn(f, c) == [f]
  {
    if f != [] {
      SplitOnWithout(f[1..], c);
      assert [f[0]] + f[1..] == f;
    }
  }

  lemma {:induction false} SplitOnAt(f: string, c: char, r: string)
    requires c !in f
    ensures SplitOn(f + [c] + r, c) == [f] + SplitOn(r, c)
  {
    var s := f + [c] + r;
    if f == [] {
      assert s[1..] == r;
    } else {
      assert s[1..] == f[1..] + [c] + r;
      SplitOnAt(f[1..], c, r);
      assert [f[0]] + f[1..] == f;
    }
  }

  lemma {:induction false} SplitJoin(fs: seq<string>)
    requires fs != []
    requires forall i :: 0 <= i < |fs| ==> '&' !in fs[i]
    ensures SplitOn(JoinAmp(fs), '&') == fs
  {
    if |fs| == 1 {
      SplitOnWithout(fs[0], '&');
    } else {
      SplitJoin(fs[1..]);
      assert fs[0] + "&" + JoinAmp(fs[1..]) == fs[0] + ['&'] + JoinAmp(fs[1..]);
      SplitOnAt(fs[0], '&', JoinAmp(fs[1..]));
    }
  }

  lemma {:induction false} SplitFirstAt(k: string, c: char, v: string)
    requires c !in k
    ensures SplitFirst(k + [c] + v, c) == (k, v)
  {
    var s := k + [c] + v;
    if k == [] {
      assert s[1..] == v;
    } else {
      assert s[1..] == k[1..] + [c] + v;
      SplitFirstAt(k[1..], c, v);
      assert [k[0]] + k[1..] == k;
    }
  }

  lemma {:induction false} DecodeOwnFields(params: seq<Property>)
    requires forall i :: 0 <= i < |params| && params[i].own ==> Unreserved(params[i])
    ensures DecodeFields(OwnFields(params)) == OwnPairs(params)
    ensures forall i :: 0 <= i < |OwnFields(params)| ==> '&' !in OwnFields(params)[i]
  {
    if params != [] {
      var init, last := params[..|params| - 1], params[|params| - 1];
      assert forall i :: 0 <= i < |init| ==> init[i] == params[i];
      DecodeOwnFields(init);
      if last.own {
        var fs := OwnFields(init) + [Field(last)];
        assert fs == OwnFields(params);
        assert fs[..|fs| - 1] == OwnFields(init);
        assert Field(last) == last.key + ['='] + last.value;
        assert Unreserved(last);
        assert '&' !in Field(last);
        SplitFirstAt(last.key, '=', last.value);
        assert DecodeFields(fs) == DecodeFields(OwnFields(init)) + [(last.key, last.value)];
      } else {
        assert OwnFields(params) == OwnFields(init);
      }
    }
  }

  /**
   * Round trip: when no key holds `&` or `=` and no value holds `&`, the
   * encoding gives back exactly the own key/value pairs, in iteration order.
   */
  lemma EncodeRoundTrip(params: seq<Property>)
    requires forall i :: 0 <= i < |params| && params[i].own ==> Unreserved(params[i])
    ensures Decode(Encoded(params)) == OwnPairs(params)
  {
    EncodedEmptyIff(params);
    DecodeOwnFields(params);
    if OwnFields(params) != [] {
      SplitJoin(OwnFields(params));
    }
  }

  /**
   * Nothing is escaped: a value that holds the separators encodes to the same
   * string as two separate parameters.
   */
  lemma NoEscaping()
    ensures Encoded([Property("a", "1&b=2", true)])
         == Encoded([Property("a", "1", true), Property("b", "2", true)])
         == "a=1&b=2"
  {
    var one := [Property("a", "1&b=2", true)];
    var two := [Property("a", "1", true), Property("b", "2", true)];
    assert one[..0] == [] && two[..1] == [two[0]] && two[..1][..0] == [];
  }

  /*********************************************************************
   * Request target and response classification
   *********************************************************************/

  /** The request target: `appUrl` is put in front of `url` unless it is empty. */
  function ResolveUrl(appUrl: string, url: string): (r: string)
    ensures r == appUrl + url
  {
    if appUrl != "" then appUrl + url else url
  }

  /** The `Content-type` header set before sending; GET sets none. */
  function ContentType(verb: Method): (h: Option<string>)
    ensures h.Some? <==> verb == POST
  {
    if verb == POST then Some(FORM_CONTENT_TYPE) else None
  }

  datatype Branch = Pending | SuccessPath | ErrorPath

  /** The `switch` on the status, reached only at the terminal ready-state. */
  function Classify(t: Transport): (b: Branch)
    ensures b == Pending <==> t.readyState != STATE_LOADED
    ensures b == SuccessPath <==> t.readyState == STATE_LOADED && t.status in SUCCESS_STATUSES
  {
    if t.readyState != STATE_LOADED then Pending
    else if t.status == 200 || t.status == 202 then SuccessPath
    else ErrorPath
  }

  /**
   * Which continuation one ready-state change invokes. The success
   * continuation receives the parsed response text, the error continuation
   * the transport itself.
   */
  datatype Call = NoCall | CallSuccess | CallError(xhr: Transport)

  function OnReadyStateChange(t: Transport, hasOnSuccess: bool, hasOnError: bool): (c: Call)
    ensures c.CallSuccess? <==> t.readyState == STATE_LOADED && t.status in SUCCESS_STATUSES && hasOnSuccess
    ensures c.CallError? <==> t.readyState == STATE_LOADED && t.status !in SUCCESS_STATUSES && hasOnError
    ensures c.CallError? ==> c.xhr == t
  {
    match Classify(t)
    case Pending => NoCall
    case SuccessPath => if hasOnSuccess then CallSuccess else NoCall
    case ErrorPath => if hasOnError then CallError(t) else NoCall
  }

  /** A 404 response reaches the error continuation and never the success one. */
  lemma NotFoundIsError(hasOnSuccess: bool, hasOnError: bool)
    ensures OnReadyStateChange(Transport(STATE_LOADED, 404), hasOnSuccess, hasOnError)
         == if hasOnError then CallError(Transport(STATE_LOADED, 404)) else NoCall
  {
  }

  /** The continuations invoked over a sequence of ready-state changes. */
  function Calls(trace: seq<Transport>, hasOnSuccess: bool, hasOnError: bool): seq<Call>
  {
    if trace == [] then []
    else
      var c := OnReadyStateChange(trace[|trace| - 1], hasOnSuccess, hasOnError);
      Calls(trace[..|trace| - 1], hasOnSuccess, hasOnError) + (if c == NoCall then [] else [c])
  }

  /**
   * The snapshots one handler sees reach the terminal ready-state at most
   * once. Any other state may repeat or come after it: the transport repeats
   * state 3 for every chunk of the body, and reusing the handle for a new
   * request fires state 1 at the old handler before `open` replaces it.
   */
  ghost predicate LoadedOnce(trace: seq<Transport>)
  {
    forall i, j :: 0 <= i < j < |trace| && trace[i].readyState == STATE_LOADED ==> trace[j].readyState != STATE_LOADED
  }

  lemma {:induction false} NoCallsBeforeLoaded(trace: seq<Transport>, hasOnSuccess: bool, hasOnError: bool)
    requires forall i :: 0 <= i < |trace| ==> trace[i].readyState != STATE_LOADED
    ensures Calls(trace, hasOnSuccess, hasOnError) == []
  {
    if trace != [] {
      NoCallsBeforeLoaded(trace[..|trace| - 1], hasOnSuccess, hasOnError);
    }
  }

  /**
   * Over the snapshots one handler sees, at most one continuation is
   * invoked, and it is the one the terminal snapshot's status selects.
   */
  lemma {:induction false} AtMostOneCall(trace: seq<Transport>, hasOnSuccess: bool, hasOnError: bool)
    requires LoadedOnce(trace)
    ensures |Calls(trace, hasOnSuccess, hasOnError)| <= 1
    ensures forall p :: 0 <= p < |trace| && trace[p].readyState == STATE_LOADED ==>
              var c := OnReadyStateChange(trace[p], hasOnSuccess, hasOnError);
              Calls(trace, hasOnSuccess, hasOnError) == if c == NoCall then [] else [c]
  {
    if trace != [] {
      var n := |trace| - 1;
      var init, last := trace[..n], trace[n];
      if last.readyState == STATE_LOADED {
        forall i | 0 <= i < |init| ensures init[i].readyState != STATE_LOADED {
          assert init[i] == trace[i];
        }
        NoCallsBeforeLoaded(init, hasOnSuccess, hasOnError);
      } else {
        assert LoadedOnce(init) by {
          forall i, j | 0 <= i < j < |init| && init[i].readyState == STATE_LOADED
            ensures init[j].readyState != STATE_LOADED
          {
            assert init[i] == trace[i] && init[j] == trace[j];
          }
        }
        AtMostOneCall(init, hasOnSuccess, hasOnError);
        forall p | 0 <= p < |trace| && trace[p].readyState == STATE_LOADED ensures p < n && init[p] == trace[p] {
        }
      }
    }
  }

  /**
   * A reused handle's old handler: two state-3 chunks, completion with 200,
   * then the state-1 event of the next request's `open`. The success
   * continuation runs once.
   */
  lemma ReusedHandleTrace()
    ensures var trace := [Transport(2, 200), Transport(3, 200), Transport(3, 200), Transport(STATE_LOADED, 200), Transport(OPENED, 0)];
            LoadedOnce(trace) && Calls(trace, true, true) == [CallSuccess]
  {
    var trace := [Transport(2, 200), Transport(3, 200), Transport(3, 200), Transport(STATE_LOADED, 200), Transport(OPENED, 0)];
    AtMostOneCall(trace, true, true);
    assert trace[3].readyState == STATE_LOADED;
  }

  /*********************************************************************
   * The engine
   *********************************************************************/

  /**
   * What `open` hands to the transport: the handle used, the verb, the
   * resolved target, the encoded body, the content-type header, and which of
   * the two continuations were supplied.
   */
  datatype Request = Request(
    handle: nat,
    verb: Method,
    url: string,
    body: string,
    contentType: Option<string>,
    hasOnSuccess: bool,
    hasOnError: bool)

  class AjaxEngine {
    /** Prefix put in front of every request target; empty means none. */
    var appUrl: string
    /** The transport pool; handles are appended and reused, never removed. */
    var xhrs: seq<Transport>

    constructor (appUrl: string)
      ensures this.appUrl == appUrl && xhrs == []
    {
      this.appUrl := appUrl;
      xhrs := [];
    }

    /** `getXHR`: reuse the last loaded handle, else pool a new one. */
    method GetXHR() returns (h: nat)
      modifies this`xhrs
      ensures (h, xhrs) == Acquire(old(xhrs))
    {
      var found: Option<nat> := None;
      var i := 0;
      while i < |xhrs|
        invariant 0 <= i <= |xhrs|
        invariant found == LastLoaded(xhrs[..i])
      {
        if xhrs[i].readyState == STATE_LOADED {
          found := Some(i);
        }
        assert xhrs[..i + 1][..i] == xhrs[..i];
        i := i + 1;
      }
      assert xhrs[..|xhrs|] == xhrs;
      if found.None? {
        h := |xhrs|;
        xhrs := xhrs + [NEW_TRANSPORT];
      } else {
        h := found.value;
      }
    }

    /**
     * `open`: acquires a handle, encodes the parameters, resolves the target
     * and opens the handle; the response is later classified by
     * `OnReadyStateChange` with the continuations recorded in the request.
     */
    method Open(verb: Method, url: string, params: seq<Property>, hasOnSuccess: bool, hasOnError: bool)
      returns (req: Request)
      modifies this`xhrs
      ensures (req.handle, xhrs) == OpenOn(old(xhrs))
      ensures req.verb == verb && req.url == ResolveUrl(appUrl, url) && req.body == Encoded(params)
      ensures req.contentType == ContentType(verb)
      ensures req.hasOnSuccess == hasOnSuccess && req.hasOnError == hasOnError
    {
      var h := GetXHR();
      var strParams := URLEncode(params);
      var target := url;
      if appUrl != "" {
        target := appUrl + url;
      }
      xhrs := xhrs[h := Transport(OPENED, 0)];
      req := Request(h, verb, target, strParams, ContentType(verb), hasOnSuccess, hasOnError);
    }

    /** `get`: `open` with the GET verb. */
    method Get(url: string, params: seq<Property>, hasOnSuccess: bool, hasOnError: bool)
      returns (req: Request)
      modifies this`xhrs
      ensures (req.handle, xhrs) == OpenOn(old(xhrs))
      ensures req == Request(req.handle, GET, ResolveUrl(appUrl, url), Encoded(params), None, hasOnSuccess, hasOnError)
    {
      req := Open(GET, url, params, hasOnSuccess, hasOnError);
    }

    /** `post`: `open` with the POST verb, which also sets the form content type. */
    method Post(url: string, params: seq<Property>, hasOnSuccess: bool, hasOnError: bool)
      returns (req: Request)
      modifies this`xhrs
      ensures (req.handle, xhrs) == OpenOn(old(xhrs))
      ensures req == Request(req.handle, POST, ResolveUrl(appUrl, url), Encoded(params),
                             Some(FORM_CONTENT_TYPE), hasOnSuccess, hasOnError)
    {
      req := Open(POST, url, params, hasOnSuccess, hasOnError);
    }

    /** The host finishes the request on handle `h` with `status`. */
    method Finish(h: nat, status: int)
      requires h < |xhrs|
      modifies this`xhrs
      ensures xhrs == old(xhrs)[h := Transport(STATE_LOADED, status)]
    {
      xhrs := xhrs[h := Transport(STATE_LOADED, status)];
    }
  }

  /**
   * Pool reuse over a short session: a second request made while the first
   * is in flight gets a new handle; once the first has finished, the next
   * request reuses its handle and the pool stops growing.
   */
  method ReuseScenario() returns (first: nat, second: nat, third: nat, poolSize: nat)
    ensures first == 0 && second == 1
    ensures third == 0
    ensures poolSize == 2
  {
    var engine := new AjaxEngine("");
    var r1 := engine.Get("a", [], true, true);
    var r2 := engine.Post("b", [], true, true);
    assert engine.xhrs == [Transport(OPENED, 0), Transport(OPENED, 0)];
    engine.Finish(r1.handle, 200);
    assert engine.xhrs == [Transport(STATE_LOADED, 200), Transport(OPENED, 0)];
    assert engine.xhrs[0].readyState == STATE_LOADED;
    var r3 := engine.Get("c", [], true, true);
    first, second, third, poolSize := r1.handle, r2.handle, r3.handle, |engine.xhrs|;
  }
}
