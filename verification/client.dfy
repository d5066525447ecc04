/**
 * The HTTP client: `fetcher`, which sends one request and turns a transport
 * failure that carries a response into an `ApiError`, and `makeHttpRequest`,
 * which wraps it with the caller's lifecycle callbacks.
 *
 * The transport (axios) is a parameter: the outcome it delivered. Callbacks are
 * pure functions whose result says whether they returned or threw; a run of
 * `makeHttpRequest` is the sequence of callback invocations it made together
 * with how the returned promise settled.
 */
module Client {
  import opened Js
  import ApiRoutes

  const DefaultMethod: string := "get"
  const FetchErrorMessage: string := "Une erreur est survenue en effectuant la reqûete"

  /** `FetchParams` (`verb` is its `method`); the query parameters are passed through untouched and are left out. */
  datatype FetchParams<P> = FetchParams(
    url: string,
    verb: Nullable<string>,
    headers: Nullable<seq<(string, string)>>,
    payload: Option<P>)

  /** The request handed to the transport. */
  datatype Request<P> = Request(verb: string, url: string, headers: seq<(string, string)>, payload: Option<P>)

  datatype HttpResponse<D> = HttpResponse(status: int, data: D)

  /** What the transport rejected with: an opaque cause, and the server's response when
      there was one. */
  datatype TransportError<D> = TransportError(cause: int, response: Option<HttpResponse<D>>)

  /** How the transport settled. */
  datatype Transport<D> = Delivered(response: HttpResponse<D>) | Failed(error: TransportError<D>)

  /** What a request can fail with: the client's `ApiError`, the transport's own error
      rethrown, or an error thrown by one of the caller's callbacks. */
  datatype RequestError<D> =
    | ApiError(message: string, info: D, status: int, response: HttpResponse<D>)
    | Rethrown(error: TransportError<D>)
    | CallbackError(cause: int)

  datatype FetchResult<D> = Resolved(data: D) | Rejected(error: RequestError<D>)

  /** The request `fetcher` builds: the base URL followed by the route, the method
      defaulting to "get", and `headers || {}`. */
  function BuildRequest<P>(base: Nullable<string>, p: FetchParams<P>): (r: Request<P>)
    ensures r.url == ApiRoutes.GetUrl(base, p.url)
    ensures p.verb.Present? ==> r.verb == p.verb.value
    ensures p.verb.IsNullish() ==> r.verb == DefaultMethod
    ensures p.headers.IsNullish() ==> r.headers == []
    ensures r.payload == p.payload
  {
    Request(p.verb.OrElse(DefaultMethod), ApiRoutes.BaseText(base) + p.url, p.headers.OrElse([]), p.payload)
  }

  /** `fetcher`: the response body on success; on failure, an `ApiError` holding the
      response's body and status when the failure carries a response, and the
      transport's error itself otherwise. */
  function Fetch<D>(t: Transport<D>): (r: FetchResult<D>)
    ensures r.Resolved? <==> t.Delivered?
    ensures r.Resolved? ==> r.data == t.response.data
    ensures t.Failed? && t.error.response.Some? ==>
      r.error.ApiError? && r.error.message == FetchErrorMessage
      && r.error.info == t.error.response.value.data && r.error.status == t.error.response.value.status
    ensures t.Failed? && t.error.response.None? ==> r.error == Rethrown(t.error)
  {
    match t
    case Delivered(resp) => Resolved(resp.data)
    case Failed(e) =>
      match e.response
      case Some(resp) => Rejected(ApiError(FetchErrorMessage, resp.data, resp.status, resp))
      case None => Rejected(Rethrown(e))
  }

  /** The result of invoking a callback. */
  datatype Call<T, D> = Returns(value: T) | Throws(error: RequestError<D>)

  /** `FetchConfigParams`; an absent callback is `None`. `onTransform` may return
      `undefined`/`null`, in which case the raw response is used. */
  datatype Config<!D> = Config(
    onError: Option<RequestError<D> -> Call<(), D>>,
    onTransform: Option<D -> Call<Nullable<D>, D>>,
    onResponse: Option<D -> Call<(), D>>,
    onLoading: Option<Call<(), D>>,
    throwOnError: Option<RequestError<D> -> Call<bool, D>>)

  datatype Event<D> =
    | LoadingCalled
    | RequestSent
    | TransformCalled(data: D)
    | ResponseCalled(value: D)
    | ErrorCalled(error: RequestError<D>)
    | ThrowOnErrorCalled(error: RequestError<D>)

  /** How the promise of `makeHttpRequest` settles. */
  datatype Outcome<D> = Returned(data: D) | ReturnedUndefined | Threw(error: RequestError<D>)

  datatype Run<D> = Run(events: seq<Event<D>>, outcome: Outcome<D>)

  /** The `catch` block: report to `onError`, then rethrow unless `throwOnError` says
      not to (`throwOnError?.(e) ?? true`). An error thrown by either callback
      escapes the block instead. */
  function Catch<D>(c: Config<D>, e: RequestError<D>, before: seq<Event<D>>): Run<D> {
    var reported := before + (if c.onError.Some? then [ErrorCalled(e)] else []);
    var errorCall := if c.onError.Some? then c.onError.value(e) else Returns(());
    if errorCall.Throws? then Run(reported, Threw(errorCall.error))
    else
      var events := reported + (if c.throwOnError.Some? then [ThrowOnErrorCalled(e)] else []);
      var decision := if c.throwOnError.Some? then c.throwOnError.value(e) else Returns(true);
      match decision
      case Throws(e2) => Run(events, Threw(e2))
      case Returns(rethrow) => Run(events, if rethrow then Threw(e) else ReturnedUndefined)
  }

  /** `makeHttpRequest`. `onResponse?.(onTransform?.(response) ?? response)` short-circuits
      as a whole when `onResponse` is absent, so `onTransform` then never runs; the
      promise resolves to the raw response, never to the transformed one. */
  function MakeHttpRequest<D>(c: Config<D>, t: Transport<D>): Run<D> {
    var started: seq<Event<D>> := if c.onLoading.Some? then [LoadingCalled] else [];
    var loading := if c.onLoading.Some? then c.onLoading.value else Returns(());
    if loading.Throws? then Catch(c, loading.error, started)
    else
      var sent := started + [RequestSent];
      match Fetch(t)
      case Rejected(e) => Catch(c, e, sent)
      case Resolved(d) =>
        if c.onResponse.None? then Run(sent, Returned(d))
        else
          var transformEvents: seq<Event<D>> := if c.onTransform.Some? then [TransformCalled(d)] else [];
          var transformed := if c.onTransform.Some? then c.onTransform.value(d) else Returns(Undefined);
          match transformed
          case Throws(e) => Catch(c, e, sent + transformEvents)
          case Returns(v) =>
            var responded := sent + transformEvents + [ResponseCalled(v.OrElse(d))];
            match c.onResponse.value(v.OrElse(d))
            case Throws(e) => Catch(c, e, responded)
            case Returns(_) => Run(responded, Returned(d))
  }

  /** The catch block ends the run: it keeps the events before it, and it resolves to
      `undefined` only when `throwOnError` was asked about this error and said no. */
  lemma CatchProperties<D>(c: Config<D>, e: RequestError<D>, before: seq<Event<D>>)
    ensures |before| <= |Catch(c, e, before).events| && Catch(c, e, before).events[..|before|] == before
    ensures !Catch(c, e, before).outcome.Returned?
    ensures Catch(c, e, before).outcome == ReturnedUndefined <==>
      c.throwOnError.Some? && (c.onError.Some? ==> c.onError.value(e).Returns?)
      && c.throwOnError.value(e) == Returns(false)
    ensures c.onError.Some? ==> Catch(c, e, before).events[|before|] == ErrorCalled(e)
    ensures c.onError.Some? && c.onError.value(e).Returns? && c.throwOnError.Some? ==>
      Catch(c, e, before).events == before + [ErrorCalled(e), ThrowOnErrorCalled(e)]
  {
  }

  /** A resolved promise carries the body the server sent, whatever `onTransform`
      returned. */
  lemma ReturnedIsRawResponse<D>(c: Config<D>, t: Transport<D>)
    ensures MakeHttpRequest(c, t).outcome.Returned? ==>
      t.Delivered? && MakeHttpRequest(c, t).outcome.data == t.response.data
  {
    var r := MakeHttpRequest(c, t);
    if r.outcome.Returned? {
      if t.Failed? {
        var started: seq<Event<D>> := if c.onLoading.Some? then [LoadingCalled] else [];
        CatchProperties(c, Fetch(t).error, started + [RequestSent]);
        if c.onLoading.Some? && c.onLoading.value.Throws? {
          CatchProperties(c, c.onLoading.value.error, started);
        }
      } else {
        var d := t.response.data;
        var started: seq<Event<D>> := if c.onLoading.Some? then [LoadingCalled] else [];
        if c.onLoading.Some? && c.onLoading.value.Throws? {
          CatchProperties(c, c.onLoading.value.error, started);
        } else if c.onResponse.Some? {
          var sent := started + [RequestSent];
          var te: seq<Event<D>> := if c.onTransform.Some? then [TransformCalled(d)] else [];
          var transformed := if c.onTransform.Some? then c.onTransform.value(d) else Returns(Undefined);
          if transformed.Throws? {
            CatchProperties(c, transformed.error, sent + te);
          } else {
            var v := transformed.value.OrElse(d);
            if c.onResponse.value(v).Throws? {
              CatchProperties(c, c.onResponse.value(v).error, sent + te + [ResponseCalled(v)]);
            }
          }
        }
      }
    }
  }

  /** `onLoading` runs first, before the request is sent. */
  lemma LoadingComesFirst<D>(c: Config<D>, t: Transport<D>)
    ensures c.onLoading.Some? ==> |MakeHttpRequest(c, t).events| > 0 && MakeHttpRequest(c, t).events[0] == LoadingCalled
    ensures c.onLoading.None? ==> |MakeHttpRequest(c, t).events| > 0 && MakeHttpRequest(c, t).events[0] == RequestSent
  {
    if c.onLoading.Some? {
      if c.onLoading.value.Throws? {
        CatchProperties(c, c.onLoading.value.error, [LoadingCalled]);
      } else {
        AfterSentKeepsPrefix(c, t, [LoadingCalled]);
      }
    } else {
      AfterSentKeepsPrefix(c, t, []);
    }
  }

  /** Once the request is sent, the run extends the events so far and the request. */
  lemma AfterSentKeepsPrefix<D>(c: Config<D>, t: Transport<D>, started: seq<Event<D>>)
    requires started == (if c.onLoading.Some? then [LoadingCalled] else [])
    requires c.onLoading.Some? ==> c.onLoading.value.Returns?
    ensures |started| < |MakeHttpRequest(c, t).events|
    ensures MakeHttpRequest(c, t).events[..|started| + 1] == started + [RequestSent]
  {
    var sent := started + [RequestSent];
    match Fetch(t)
    case Rejected(e) => CatchProperties(c, e, sent);
    case Resolved(d) =>
      if c.onResponse.Some? {
        var te: seq<Event<D>> := if c.onTransform.Some? then [TransformCalled(d)] else [];
        var transformed := if c.onTransform.Some? then c.onTransform.value(d) else Returns(Undefined);
        assert (sent + te)[..|sent|] == sent;
        if transformed.Throws? {
          CatchProperties(c, transformed.error, sent + te);
        } else {
          var v := transformed.value.OrElse(d);
          var responded := sent + te + [ResponseCalled(v)];
          assert responded[..|sent|] == sent;
          if c.onResponse.value(v).Throws? {
            CatchProperties(c, c.onResponse.value(v).error, responded);
          }
        }
      }
  }

  /** Without `onResponse`, `onTransform` is never invoked, and a delivered response
      resolves the promise. */
  lemma NoTransformWithoutResponse<D>(c: Config<D>, t: Transport<D>)
    requires c.onResponse.None?
    requires c.onLoading.Some? ==> c.onLoading.value.Returns?
    ensures forall i :: 0 <= i < |MakeHttpRequest(c, t).events| ==> !MakeHttpRequest(c, t).events[i].TransformCalled?
    ensures t.Delivered? ==> MakeHttpRequest(c, t).outcome == Returned(t.response.data)
  {
    var started: seq<Event<D>> := if c.onLoading.Some? then [LoadingCalled] else [];
    var sent := started + [RequestSent];
    assert forall i :: 0 <= i < |sent| ==> !sent[i].TransformCalled?;
    if t.Failed? {
      var e := Fetch(t).error;
      var r := Catch(c, e, sent);
      assert MakeHttpRequest(c, t) == r;
      CatchProperties(c, e, sent);
      assert forall i :: 0 <= i < |r.events| ==> r.events[i] in sent || r.events[i] == ErrorCalled(e) || r.events[i] == ThrowOnErrorCalled(e);
    } else {
      assert MakeHttpRequest(c, t) == Run(sent, Returned(t.response.data));
    }
  }

  /** With no `throwOnError`, every failure is rethrown: the promise never resolves to
      `undefined`. */
  lemma FailuresRethrownByDefault<D>(c: Config<D>, t: Transport<D>)
    requires c.throwOnError.None?
    ensures MakeHttpRequest(c, t).outcome != ReturnedUndefined
    ensures (t.Failed? && (c.onLoading.Some? ==> c.onLoading.value.Returns?)
             && (c.onError.Some? ==> c.onError.value(Fetch(t).error).Returns?)) ==>
      MakeHttpRequest(c, t).outcome == Threw(Fetch(t).error)
  {
    var started: seq<Event<D>> := if c.onLoading.Some? then [LoadingCalled] else [];
    if c.onLoading.Some? && c.onLoading.value.Throws? {
      CatchProperties(c, c.onLoading.value.error, started);
    } else {
      var sent := started + [RequestSent];
      match Fetch(t)
      case Rejected(e) => CatchProperties(c, e, sent);
      case Resolved(d) =>
        if c.onResponse.Some? {
          var te: seq<Event<D>> := if c.onTransform.Some? then [TransformCalled(d)] else [];
          var transformed := if c.onTransform.Some? then c.onTransform.value(d) else Returns(Undefined);
          if transformed.Throws? {
            CatchProperties(c, transformed.error, sent + te);
          } else {
            var v := transformed.value.OrElse(d);
            if c.onResponse.value(v).Throws? {
              CatchProperties(c, c.onResponse.value(v).error, sent + te + [ResponseCalled(v)]);
            }
          }
        }
    }
  }

  /** A configuration whose callbacks never throw and whose `throwOnError` always says
      no, as the media pages pass it. */
  ghost predicate Silent<D(!new)>(c: Config<D>) {
    c.onLoading.None?
    && c.onTransform.None?
    && c.onError.Some? && (forall e :: c.onError.value(e).Returns?)
    && c.onResponse.Some? && (forall d :: c.onResponse.value(d).Returns?)
    && c.throwOnError.Some? && (forall e :: c.throwOnError.value(e) == Returns(false))
  }

  /** Under a silent configuration the request never throws: a delivered response is
      handed to `onResponse` once and nothing else, and a failure is handed to
      `onError` once and nothing else. */
  lemma SilentRequest<D(!new)>(c: Config<D>, t: Transport<D>)
    requires Silent(c)
    ensures MakeHttpRequest(c, t).outcome.Returned? <==> t.Delivered?
    ensures t.Delivered? ==>
      MakeHttpRequest(c, t) == Run([RequestSent, ResponseCalled(t.response.data)], Returned(t.response.data))
    ensures t.Failed? ==>
      MakeHttpRequest(c, t) == Run([RequestSent, ErrorCalled(Fetch(t).error), ThrowOnErrorCalled(Fetch(t).error)], ReturnedUndefined)
  {
    if t.Failed? {
      var e := Fetch(t).error;
      assert c.onError.value(e).Returns?;
      assert c.throwOnError.value(e) == Returns(false);
      CatchProperties(c, e, [RequestSent]);
    } else {
      assert c.onResponse.value(t.response.data).Returns?;
    }
  }
}
