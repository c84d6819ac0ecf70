/** `process_product_urls`: the sequential, rate-paused extraction loop over
    the product URLs. The output folder is a map from file name to contents;
    page fetching, the extraction service and the JSON parser are oracles. */
module Pipeline {
  import opened Text
  import opened Urls

  /** A 60-second pause comes before every index that is a positive multiple
      of this. */
  const PauseEvery: nat := 15
  /** The text of a service error that triggers the reduced-content retry. */
  const ContextError: string := "context_length_exceeded"
  const JsonFence: string := "```json"
  const Fence: string := "```"

  /** The product page request: a response with its status and body, or an
      exception raised by the request itself. */
  datatype Page = Fetched(status: int, html: string) | Unreachable(reason: string)

  /** The two prompts: one built from the annotated page, and one built from
      the page with header, footer and nav removed. Both HTML rewrites are
      abstracted into the page text they start from. */
  datatype Prompt = Full(html: string) | Reduced(html: string)

  /** What the extraction call yields: its stripped text, or the text of the
      exception it raised. */
  datatype Reply = Answer(text: string) | ServiceError(message: string)

  /** A JSON member value: a string, or any other value kept opaque. */
  datatype Json = JString(s: string) | JOther(text: string)

  /** What `json.loads` yields: an object, another JSON value (for which
      `json_data['url'] = url` raises), or a decoding error. */
  datatype Parsed = Object(fields: map<string, Json>) | NotObject | Malformed(message: string)

  /** A file of the output folder: a product record, or the raw text kept
      when parsing failed. */
  datatype Stored = Record(fields: map<string, Json>) | RawText(text: string)

  datatype Services = Services(fetch: Url -> Page, extract: Prompt -> Reply, parse: string -> Parsed)

  /** The files the loop writes for the product named `name`:
      `<name>.json` and `<name>.json.txt`. */
  datatype FileName = RecordFile(name: string) | RawFile(name: string)

  type Folder = map<FileName, Stored>

  /** The extraction calls made by one visit, in order, and the folder
      afterwards. */
  datatype Outcome = Outcome(calls: seq<Prompt>, folder: Folder)

  /** `url.split('/')[-1]` */
  function ProductName(url: Url): (name: string)
    ensures '/' !in name
  {
    AfterLast(url, '/')
  }

  /** The product name is the last path segment of the URL: it ends the URL,
      holds no '/', and a '/' comes just before it unless it is the whole URL. */
  lemma ProductNameIsLastSegment(url: Url)
    ensures EndsWith(url, ProductName(url))
    ensures '/' !in ProductName(url)
    ensures |ProductName(url)| < |url| ==> url[|url| - |ProductName(url)| - 1] == '/'
  {
    AfterLastSuffix(url, '/');
  }

  /** The path of a file inside the output folder. */
  function Path(f: FileName): (p: string)
    ensures EndsWith(p, ".json") <==> f.RecordFile?
  {
    match f
    case RecordFile(name) =>
      assert (name + ".json")[|name|..] == ".json";
      name + ".json"
    case RawFile(name) =>
      var p := name + ".json.txt";
      assert p[|p| - 1] == 't';
      p
  }

  /** Different file names give different paths, so keying the folder by
      `FileName` loses nothing; in particular a raw-text file never
      overwrites a product record. */
  lemma PathInjective(f: FileName, g: FileName)
    requires Path(f) == Path(g)
    ensures f == g
  {
    var p := Path(f);
    if f.RecordFile? && g.RecordFile? {
      assert f.name == p[..|p| - 5] == g.name;
    } else if f.RawFile? && g.RawFile? {
      assert f.name == p[..|p| - 9] == g.name;
    }
  }

  /** The code-fence clean-up of the service's answer. */
  function StripFences(text: string): (r: string)
    ensures |r| <= |Strip(text)|
  {
    var t := Strip(text);
    var a := if StartsWith(t, JsonFence) then t[|JsonFence|..] else t;
    if EndsWith(a, Fence) then a[..|a| - |Fence|] else a
  }

  /** An answer wrapped in a `json` fence gives back what is inside it. */
  lemma FencesRemoved(text: string, x: string)
    requires Strip(text) == JsonFence + x + Fence
    ensures StripFences(text) == x
  {
    var t := Strip(text);
    assert t[..|JsonFence|] == JsonFence;
    assert t[|JsonFence|..] == x + Fence;
    assert (x + Fence)[|x|..] == Fence;
    assert (x + Fence)[..|x|] == x;
  }

  /** An answer with neither fence comes back stripped and otherwise as it was. */
  lemma NoFences(text: string)
    requires !StartsWith(Strip(text), JsonFence) && !EndsWith(Strip(text), Fence)
    ensures StripFences(text) == Strip(text)
  {
  }

  /** The extraction calls for one page and the reply they end with. */
  datatype Extracted = Extracted(calls: seq<Prompt>, reply: Reply)

  /** The first extraction call, and the single reduced-content retry made
      only when the first call failed with a context-length error. */
  function Extract(svc: Services, html: string): (e: Extracted)
    ensures 1 <= |e.calls| <= 2 && e.calls[0] == Full(html)
    ensures |e.calls| == 2 <==>
              svc.extract(Full(html)).ServiceError? && Contains(svc.extract(Full(html)).message, ContextError)
    ensures |e.calls| == 2 ==> e.calls[1] == Reduced(html) && e.reply == svc.extract(Reduced(html))
    ensures |e.calls| == 1 ==> e.reply == svc.extract(Full(html))
  {
    var first := svc.extract(Full(html));
    if first.ServiceError? && Contains(first.message, ContextError) then
      Extracted([Full(html), Reduced(html)], svc.extract(Reduced(html)))
    else
      Extracted([Full(html)], first)
  }

  /** The text of the `RetryError` that tenacity raises when it gives up
      and `reraise` is not set: it shows the future of the last attempt,
      at address `addr`, and the class `cls` of the exception that attempt
      raised, but not that exception's message. */
  function RetryErrorText(addr: string, cls: string): (t: string)
    ensures StartsWith(t, "RetryError[") && EndsWith(t, cls + ">]")
  {
    var t := "RetryError[<Future at 0x" + addr + " state=finished raised " + cls + ">]";
    assert t[..11] == "RetryError[";
    assert t[|t| - |cls + ">]"|..] == cls + ">]";
    t
  }

  /** The `RetryError` text has no 'g' when neither the address nor the
      class name has one. */
  lemma RetryErrorTextLacksG(addr: string, cls: string)
    requires 'g' !in addr && 'g' !in cls
    ensures 'g' !in RetryErrorText(addr, cls)
  {
    var head, mid := "RetryError[<Future at 0x", " state=finished raised ";
    assert 'g' !in head && 'g' !in mid && 'g' !in ">]";
    assert RetryErrorText(addr, cls) == head + addr + mid + cls + ">]";
  }

  /** As written, the decorated call reports a failure as the `RetryError`
      text, so for a `BadRequestError` at a hexadecimal address the test at
      line 99 never finds `context_length_exceeded` and the reduced prompt
      is never sent. */
  lemma RetryGuardNeverFires(svc: Services, html: string, addr: string, cls: string)
    requires 'g' !in addr && 'g' !in cls
    requires svc.extract(Full(html)) == ServiceError(RetryErrorText(addr, cls))
    ensures !Contains(RetryErrorText(addr, cls), ContextError)
    ensures Extract(svc, html).calls == [Full(html)]
  {
    RetryErrorTextLacksG(addr, cls);
    assert ContextError[11] == 'g';
    ContainsChar(RetryErrorText(addr, cls), ContextError, 11);
  }

  /** The text of the raw-text file for an answer that is not JSON. */
  function RawArtifact(url: Url, text: string): string {
    "URL: " + url + "\n\n" + text
  }

  /** `after` is `before` with at most the record file and the raw-text file
      of the product named `name` written, and nothing removed. */
  predicate WritesOnly(before: Folder, after: Folder, name: string) {
    && before.Keys <= after.Keys
    && after.Keys <= before.Keys + {RecordFile(name), RawFile(name)}
    && forall k :: k in before && k != RecordFile(name) && k != RawFile(name) ==> after[k] == before[k]
  }

  /** The body of the loop for one product URL. */
  function Visit(svc: Services, folder: Folder, url: Url): (o: Outcome)
    ensures RecordFile(ProductName(url)) in folder ==> o == Outcome([], folder)
    ensures |o.calls| <= 2
  {
    var name := ProductName(url);
    if RecordFile(name) in folder then Outcome([], folder)
    else
      var page := svc.fetch(url);
      if page.Unreachable? || page.status != 200 then Outcome([], folder)
      else
        var e := Extract(svc, page.html);
        if e.reply.ServiceError? then Outcome(e.calls, folder)
        else Outcome(e.calls, Store(folder, url, e.reply.text, svc.parse(StripFences(e.reply.text))))
  }

  /** What the answer `text` for `url` leaves in the folder, given what the
      parser made of it. */
  function Store(folder: Folder, url: Url, text: string, parsed: Parsed): (after: Folder)
    ensures WritesOnly(folder, after, ProductName(url))
    ensures parsed.NotObject? ==> after == folder
    ensures RecordFile(ProductName(url)) in after && RecordFile(ProductName(url)) !in folder ==>
              && after[RecordFile(ProductName(url))].Record?
              && "url" in after[RecordFile(ProductName(url))].fields
              && after[RecordFile(ProductName(url))].fields["url"] == JString(url)
  {
    var name := ProductName(url);
    match parsed
    case Object(fields) => folder[RecordFile(name) := Record(fields["url" := JString(url)])]
    case NotObject => folder
    case Malformed(_) => folder[RawFile(name) := RawText(RawArtifact(url, text))]
  }

  /** A visit writes at most the two files named after the product. */
  lemma VisitFrame(svc: Services, folder: Folder, url: Url)
    ensures WritesOnly(folder, Visit(svc, folder, url).folder, ProductName(url))
  {
  }

  /** A record written by a visit carries the page's URL under `url`. */
  lemma VisitTagsRecord(svc: Services, folder: Folder, url: Url)
    requires RecordFile(ProductName(url)) !in folder
    requires RecordFile(ProductName(url)) in Visit(svc, folder, url).folder
    ensures Visit(svc, folder, url).folder[RecordFile(ProductName(url))].Record?
    ensures "url" in Visit(svc, folder, url).folder[RecordFile(ProductName(url))].fields
    ensures Visit(svc, folder, url).folder[RecordFile(ProductName(url))].fields["url"] == JString(url)
  {
  }

  /** The raw text names the page on its first line, leaves a blank line,
      and ends with the answer text as it came back. */
  lemma RawArtifactNamesUrl(url: Url, text: string)
    ensures StartsWith(RawArtifact(url, text), "URL: " + url + "\n\n")
    ensures EndsWith(RawArtifact(url, text), text)
    ensures |RawArtifact(url, text)| == |url| + |text| + 7
  {
    assert RawArtifact(url, text)[..|url| + 7] == "URL: " + url + "\n\n";
  }


  /** A product answer that parses to an object is stored under
      `<name>.json`, the other members as parsed and `url` set to the page. */
  lemma VisitStoresRecord(svc: Services, folder: Folder, url: Url, html: string, text: string)
    requires RecordFile(ProductName(url)) !in folder
    requires svc.fetch(url) == Fetched(200, html)
    requires Extract(svc, html).reply == Answer(text)
    requires svc.parse(StripFences(text)).Object?
    ensures Visit(svc, folder, url).folder
              == folder[RecordFile(ProductName(url)) := Record(svc.parse(StripFences(text)).fields["url" := JString(url)])]
  {
  }

  /** An answer that is not JSON is kept, tagged with the page, under
      `<name>.json.txt`, and no record is written. */
  lemma VisitStoresRawText(svc: Services, folder: Folder, url: Url, html: string, text: string)
    requires RecordFile(ProductName(url)) !in folder
    requires svc.fetch(url) == Fetched(200, html)
    requires Extract(svc, html).reply == Answer(text)
    requires svc.parse(StripFences(text)).Malformed?
    ensures Visit(svc, folder, url).folder == folder[RawFile(ProductName(url)) := RawText(RawArtifact(url, text))]
    ensures RecordFile(ProductName(url)) !in Visit(svc, folder, url).folder
  {
  }

  /** A fenced answer is stored as the parse of what is inside the fence. */
  lemma VisitFencedAnswer(svc: Services, folder: Folder, url: Url, html: string, text: string, x: string)
    requires RecordFile(ProductName(url)) !in folder
    requires svc.fetch(url) == Fetched(200, html)
    requires Extract(svc, html).reply == Answer(text)
    requires Strip(text) == JsonFence + x + Fence
    requires svc.parse(x).Object?
    ensures Visit(svc, folder, url).folder
              == folder[RecordFile(ProductName(url)) := Record(svc.parse(x).fields["url" := JString(url)])]
  {
    FencesRemoved(text, x);
    VisitStoresRecord(svc, folder, url, html, text);
  }

  /** A page that cannot be fetched, or answers with a status other than
      200, costs no extraction call and writes nothing. */
  lemma VisitSkipsFailedPage(svc: Services, folder: Folder, url: Url)
    requires !(svc.fetch(url).Fetched? && svc.fetch(url).status == 200)
    ensures Visit(svc, folder, url) == Outcome([], folder)
  {
  }

  /** A failed extraction, or an answer that is JSON but not an object,
      writes nothing. */
  lemma VisitKeepsFolderOnError(svc: Services, folder: Folder, url: Url, html: string)
    requires RecordFile(ProductName(url)) !in folder
    requires svc.fetch(url) == Fetched(200, html)
    requires Extract(svc, html).reply.ServiceError?
             || svc.parse(StripFences(Extract(svc, html).reply.text)).NotObject?
    ensures Visit(svc, folder, url) == Outcome(Extract(svc, html).calls, folder)
  {
  }

  /** A visit never replaces a product record that was already there. */
  lemma VisitKeepsRecords(svc: Services, folder: Folder, url: Url)
    ensures forall k :: k in folder && k.RecordFile? ==>
              k in Visit(svc, folder, url).folder && Visit(svc, folder, url).folder[k] == folder[k]
  {
    VisitFrame(svc, folder, url);
  }

  /** What the loop does, in order, as far as the rate limit is concerned: a
      60-second pause, or one extraction call. */
  datatype Event = Pause | Call(prompt: Prompt)

  /** The extraction calls of one visit, as events. */
  function Calls(prompts: seq<Prompt>): (es: seq<Event>)
    ensures |es| == |prompts| && Pause !in es
    ensures forall j :: 0 <= j < |es| ==> es[j] == Call(prompts[j])
  {
    if prompts == [] then [] else [Call(prompts[0])] + Calls(prompts[1..])
  }

  /** The events of the whole loop and the folder it leaves. */
  datatype Trace = Trace(events: seq<Event>, folder: Folder)

  /** The events of the loop turn for the URL at index `i`: the pause if one
      is due, then the calls of the visit. */
  function Turn(i: nat, step: Outcome): (ev: seq<Event>)
    ensures multiset(ev)[Pause] == if PauseBefore(i) then 1 else 0
    ensures |ev| == |step.calls| + if PauseBefore(i) then 1 else 0
    ensures step.calls == [] ==> forall e :: e in ev ==> e == Pause
  {
    var pause := if PauseBefore(i) then [Pause] else [];
    var calls := Calls(step.calls);
    assert multiset(calls)[Pause] == 0;
    pause + calls
  }

  /** The whole loop: the URLs visited in order, each against the folder the
      previous ones left, with the pauses scheduled by index. */
  function Run(svc: Services, folder: Folder, urls: seq<Url>): (t: Trace)
    ensures folder.Keys <= t.folder.Keys
    ensures forall k :: k in folder && k.RecordFile? ==> t.folder[k] == folder[k]
    decreases |urls|
  {
    if urls == [] then Trace([], folder)
    else
      var before := Run(svc, folder, urls[..|urls| - 1]);
      var last := urls[|urls| - 1];
      var step := Visit(svc, before.folder, last);
      VisitKeepsRecords(svc, before.folder, last);
      VisitFrame(svc, before.folder, last);
      Trace(before.events + Turn(|urls| - 1, step), step.folder)
  }

  /** One more turn of the loop. */
  lemma RunStep(svc: Services, folder: Folder, urls: seq<Url>, i: nat)
    requires i < |urls|
    ensures var before := Run(svc, folder, urls[..i]);
            var step := Visit(svc, before.folder, urls[i]);
            Run(svc, folder, urls[..i + 1]) == Trace(before.events + Turn(i, step), step.folder)
  {
    assert urls[..i + 1][..i] == urls[..i];
  }

  /** The loop pauses once per index in `PauseSchedule`, and makes at most
      two calls per URL besides. */
  lemma {:induction false} RunCounts(svc: Services, folder: Folder, urls: seq<Url>)
    ensures multiset(Run(svc, folder, urls).events)[Pause] == |PauseSchedule(|urls|)|
    ensures |Run(svc, folder, urls).events| <= |PauseSchedule(|urls|)| + 2 * |urls|
    decreases |urls|
  {
    if urls != [] {
      var n := |urls| - 1;
      RunCounts(svc, folder, urls[..n]);
      RunStep(svc, folder, urls, n);
      PauseStep(n);
      assert urls[..n + 1] == urls;
    }
  }

  /** When every product already has its record, the loop only pauses and
      leaves the folder as it was. */
  lemma {:induction false} RunAllSkipped(svc: Services, folder: Folder, urls: seq<Url>)
    requires forall i :: 0 <= i < |urls| ==> RecordFile(ProductName(urls[i])) in folder
    ensures Run(svc, folder, urls).folder == folder
    ensures forall e :: e in Run(svc, folder, urls).events ==> e == Pause
    decreases |urls|
  {
    if urls != [] {
      var n := |urls| - 1;
      RunAllSkipped(svc, folder, urls[..n]);
      RunStep(svc, folder, urls, n);
      assert urls[..n + 1] == urls;
    }
  }

  /** The loop over a prefix of the URLs is the start of the loop over all of
      them. */
  lemma {:induction false} RunPrefix(svc: Services, folder: Folder, urls: seq<Url>, i: nat)
    requires i <= |urls|
    ensures Run(svc, folder, urls[..i]).events <= Run(svc, folder, urls).events
    decreases |urls|
  {
    if i < |urls| {
      var init := urls[..|urls| - 1];
      assert init[..i] == urls[..i];
      RunPrefix(svc, folder, init, i);
    } else {
      assert urls[..i] == urls;
    }
  }

  /** Where the pauses fall among the calls: when one is due before index `i`
      it comes right after every call for the URLs before `i`, and so before
      any call for URL `i`; when none is due, the turn for URL `i` holds only
      calls. */
  lemma PauseOrder(svc: Services, folder: Folder, urls: seq<Url>, i: nat)
    requires i < |urls|
    ensures PauseBefore(i) ==> Run(svc, folder, urls[..i]).events + [Pause] <= Run(svc, folder, urls).events
    ensures !PauseBefore(i) ==>
              var start := |Run(svc, folder, urls[..i]).events|;
              var next := Run(svc, folder, urls[..i + 1]).events;
              start <= |next| && forall e :: e in next[start..] ==> e.Call?
  {
    var before := Run(svc, folder, urls[..i]);
    var step := Visit(svc, before.folder, urls[i]);
    RunStep(svc, folder, urls, i);
    RunPrefix(svc, folder, urls, i + 1);
    TurnOrder(i, step, before.events, Run(svc, folder, urls[..i + 1]).events, Run(svc, folder, urls).events);
  }

  /** The turn for index `i` starts with its pause, if one is due, and holds
      only calls otherwise. */
  lemma TurnOrder(i: nat, step: Outcome, before: seq<Event>, next: seq<Event>, all: seq<Event>)
    requires next == before + Turn(i, step) && next <= all
    ensures PauseBefore(i) ==> before + [Pause] <= all
    ensures !PauseBefore(i) ==> |before| <= |next| && forall e :: e in next[|before|..] ==> e.Call?
  {
    if PauseBefore(i) {
      assert Turn(i, step) == [Pause] + Calls(step.calls);
      assert next[..|before| + 1] == before + [Pause];
      PrefixTrans(before + [Pause], next, all);
    } else {
      assert next[|before|..] == Calls(step.calls);
    }
  }

  predicate PauseBefore(i: nat) {
    i > 0 && i % PauseEvery == 0
  }

  /** The indexes before which the loop over `n` URLs pauses (see
      `PauseScheduleSpec`). */
  function PauseSchedule(n: nat): seq<nat> {
    if n == 0 then [] else PauseSchedule(n - 1) + if PauseBefore(n - 1) then [n - 1] else []
  }

  /** The loop pauses before every positive multiple of `PauseEvery` below
      `n`, in increasing order, `(n - 1) / PauseEvery` times in all. */
  lemma {:induction false} PauseScheduleSpec(n: nat)
    ensures forall i :: i in PauseSchedule(n) <==> 0 < i < n && i % PauseEvery == 0
    ensures |PauseSchedule(n)| == if n == 0 then 0 else (n - 1) / PauseEvery
    ensures forall j, k :: 0 <= j < k < |PauseSchedule(n)| ==> PauseSchedule(n)[j] < PauseSchedule(n)[k]
  {
    if n > 0 {
      PauseScheduleSpec(n - 1);
      var before := PauseSchedule(n - 1);
      assert forall j :: 0 <= j < |before| ==> before[j] < n - 1 by {
        forall j | 0 <= j < |before| ensures before[j] < n - 1 {
          assert before[j] in before;
        }
      }
    }
  }

  lemma PauseStep(i: nat)
    ensures PauseSchedule(i + 1) == PauseSchedule(i) + if PauseBefore(i) then [i] else []
  {
  }

  /** A sequence that starts with `s` is `s` followed by the rest. */
  lemma Extend<T>(s: seq<T>, t: seq<T>)
    requires s <= t
    ensures t == s + t[|s|..]
  {
  }

  /** Appending two pieces to a sequence that starts with `s` appends them
      to its rest after `s`. */
  lemma Append<T>(s: seq<T>, t: seq<T>, a: seq<T>, b: seq<T>, u: seq<T>)
    requires s <= t && u == t + a + b
    ensures s <= u && u[|s|..] == t[|s|..] + (a + b)
  {
  }

  class Extractor {
    const svc: Services
    /** The output folder. */
    var folder: Folder
    /** Every pause and extraction call, in order. */
    var events: seq<Event>

    constructor (svc: Services, folder: Folder)
      ensures this.svc == svc && this.folder == folder && events == []
    {
      this.svc := svc;
      this.folder := folder;
      events := [];
    }

    /** `process_product_urls(session, product_urls, folder_name)`. */
    method ProcessProductUrls(urls: seq<Url>)
      modifies this
      ensures old(events) <= events
      ensures Trace(events[|old(events)|..], folder) == Run(svc, old(folder), urls)
    {
      for i := 0 to |urls|
        invariant old(events) <= events
        invariant Trace(events[|old(events)|..], folder) == Run(svc, old(folder), urls[..i])
      {
        ghost var start := events;
        ghost var step := Visit(svc, folder, urls[i]);
        ghost var pause: seq<Event> := if PauseBefore(i) then [Pause] else [];
        RunStep(svc, old(folder), urls, i);
        if i > 0 && i % PauseEvery == 0 {
          events := events + [Pause];
        }
        ghost var mid := events;
        assert mid == start + pause;
        VisitUrl(urls[i]);
        Extend(mid, events);
        assert events == mid + Calls(step.calls);
        Append(old(events), start, pause, Calls(step.calls), events);
      }
      assert urls[..|urls|] == urls;
    }

    /** One pass of the loop's body, from the skip check on. */
    method VisitUrl(url: Url)
      modifies this
      ensures old(events) <= events
      ensures events[|old(events)|..] == Calls(Visit(svc, old(folder), url).calls)
      ensures folder == Visit(svc, old(folder), url).folder
    {
      var productName := AfterLast(url, '/');
      var fileName := RecordFile(productName);
      if fileName in folder {
        return;
      }
      var page := svc.fetch(url);
      if page.Unreachable? || page.status != 200 {
        return;
      }
      var html := page.html;
      events := events + [Call(Full(html))];
      var reply := svc.extract(Full(html));
      if reply.ServiceError? {
        if Contains(reply.message, ContextError) {
          events := events + [Call(Reduced(html))];
          reply := svc.extract(Reduced(html));
          if reply.ServiceError? {
            return;
          }
        } else {
          return;
        }
      }
      var cleanedText := reply.text;
      var cleanedJson := StripFences(cleanedText);
      match svc.parse(cleanedJson)
      case Object(fields) =>
        folder := folder[fileName := Record(fields["url" := JString(url)])];
      case NotObject =>
      case Malformed(_) =>
        folder := folder[RawFile(productName) := RawText(RawArtifact(url, cleanedText))];
    }
  }
}
