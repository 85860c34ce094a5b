/** The fetch control logic of the registry scraper (scrape-cpso.py): the retry
    loop with exponential backoff, the form body of one search request, the name
    of the raw file a result is saved to, and the loop that collects the results
    of a list of postal codes. The network is abstract: the outcome of each
    attempt is given as a function of the attempt's number, and sleeps are
    recorded as a list of durations instead of taking time. */
module Scraper {
  import opened Wrappers
  import opened Seqs
  import opened Records

  // ---------------------------------------------------------------------------
  // Retry with exponential backoff

  /** What one POST attempt comes to: a response with its status code and its
      parsed JSON object, or an exception with its message (a network error, or
      a body that does not parse as JSON). */
  datatype Attempt =
    | Response(status: int, payload: RawRecord)
    | Raised(message: string)

  /** The defaults the collection loop calls the retry loop with. */
  const MaxRetries: int := 5
  const InitialDelay: int := 2

  /** The JSON decoder's message for a raw control character inside a string. */
  const InvalidControlMarker: string := "Invalid control character at: line"

  predicate Succeeded(a: Attempt)
  {
    a.Response? && a.status == 200
  }

  /** An exception the loop gives up on at once, without sleeping. */
  predicate Fatal(a: Attempt)
  {
    a.Raised? && Contains(a.message, InvalidControlMarker)
  }

  /** An exception is fatal exactly when the marker occurs at some position of
      its message; a response never is. */
  lemma FatalSpec(a: Attempt)
    ensures Fatal(a) <==>
              && a.Raised?
              && exists i: nat :: OccursAt(a.message, InvalidControlMarker, i)
  {
    if a.Raised? {
      ContainsIff(a.message, InvalidControlMarker);
    }
  }

  /** Status 429, any other non-200 status, or any other exception. */
  predicate Retryable(a: Attempt)
  {
    !Succeeded(a) && !Fatal(a)
  }

  /** The outcome of the retry loop: the payload returned, if any, the sleeps
      taken in order, and the number of attempts made. */
  datatype Fetched = Fetched(result: Option<RawRecord>, sleeps: seq<int>, attempts: nat)

  function Pow2(k: nat): nat
  {
    if k == 0 then 1 else 2 * Pow2(k - 1)
  }

  /** The rest of the retry loop from attempt number `retries`, with the
      current `delay`. */
  function BackoffFrom(respond: nat -> Attempt, retries: nat, maxRetries: int, delay: int): Fetched
    decreases maxRetries - retries
  {
    if retries >= maxRetries then Fetched(None, [], retries)
    else
      var a := respond(retries);
      if Succeeded(a) then Fetched(Some(a.payload), [], retries + 1)
      else if Fatal(a) then Fetched(None, [], retries + 1)
      else
        var rest := BackoffFrom(respond, retries + 1, maxRetries, delay * 2);
        Fetched(rest.result, [delay] + rest.sleeps, rest.attempts)
  }

  /** The whole retry loop: `respond(k)` is the outcome of attempt number `k`. */
  function Backoff(respond: nat -> Attempt, maxRetries: int, initialDelay: int): Fetched
  {
    BackoffFrom(respond, 0, maxRetries, initialDelay)
  }

  /** fetch_with_backoff. */
  method FetchWithBackoff(respond: nat -> Attempt, maxRetries: int, initialDelay: int)
    returns (result: Option<RawRecord>, sleeps: seq<int>, attempts: nat)
    ensures Fetched(result, sleeps, attempts) == Backoff(respond, maxRetries, initialDelay)
  {
    var retries: nat := 0;
    var delay := initialDelay;
    sleeps := [];
    while retries < maxRetries
      invariant |sleeps| == retries
      invariant var rest := BackoffFrom(respond, retries, maxRetries, delay);
        Backoff(respond, maxRetries, initialDelay) == Fetched(rest.result, sleeps + rest.sleeps, rest.attempts)
      decreases maxRetries - retries
    {
      var a := respond(retries);
      if a.Response? && a.status == 200 {
        assert (sleeps + []) == sleeps;
        return Some(a.payload), sleeps, retries + 1;
      } else if a.Raised? && Contains(a.message, InvalidControlMarker) {
        assert (sleeps + []) == sleeps;
        return None, sleeps, retries + 1;
      }
      var rest := BackoffFrom(respond, retries + 1, maxRetries, delay * 2);
      assert sleeps + ([delay] + rest.sleeps) == (sleeps + [delay]) + rest.sleeps;
      sleeps := sleeps + [delay];
      delay := delay * 2;
      retries := retries + 1;
    }
    assert sleeps + [] == sleeps;
    result, attempts := None, retries;
  }

  /** The loop from attempt `retries` on: it stops after at most `maxRetries`
      attempts in all, the j-th sleep from here is `delay * 2^j`, and every
      attempt before the last one made was retryable. */
  lemma {:induction false} BackoffFromShape(respond: nat -> Attempt, retries: nat, maxRetries: int, delay: int)
    ensures var f := BackoffFrom(respond, retries, maxRetries, delay);
      && retries <= f.attempts
      && (retries < maxRetries ==> f.attempts <= maxRetries)
      && (retries >= maxRetries ==> f.attempts == retries)
      && (forall j :: 0 <= j < |f.sleeps| ==> f.sleeps[j] == delay * Pow2(j))
      && (forall j :: retries <= j < f.attempts - 1 ==> Retryable(respond(j)))
    decreases maxRetries - retries
  {
    if retries < maxRetries && Retryable(respond(retries)) {
      var rest := BackoffFrom(respond, retries + 1, maxRetries, delay * 2);
      BackoffFromShape(respond, retries + 1, maxRetries, delay * 2);
      var f := BackoffFrom(respond, retries, maxRetries, delay);
      forall j | 0 <= j < |f.sleeps|
        ensures f.sleeps[j] == delay * Pow2(j)
      {
        if j > 0 {
          assert f.sleeps[j] == rest.sleeps[j - 1];
        }
      }
    }
  }

  /** How the loop from attempt `retries` ends: with the payload of a status-200
      attempt, at a fatal exception, or with the attempts used up; only in the
      last case is the final attempt followed by a sleep. */
  lemma {:induction false} BackoffFromEnd(respond: nat -> Attempt, retries: nat, maxRetries: int, delay: int)
    ensures var f := BackoffFrom(respond, retries, maxRetries, delay);
      && (f.result.Some? <==> f.attempts > retries && Succeeded(respond(f.attempts - 1)))
      && (f.result.Some? ==> f.result.value == respond(f.attempts - 1).payload)
      && (f.attempts > retries && Fatal(respond(f.attempts - 1)) ==> f.result.None?)
      && (f.attempts > retries && !Retryable(respond(f.attempts - 1)) ==> |f.sleeps| == f.attempts - retries - 1)
      && (f.attempts <= retries || Retryable(respond(f.attempts - 1)) ==>
            f.result.None? && |f.sleeps| == f.attempts - retries && (retries < maxRetries ==> f.attempts == maxRetries))
    decreases maxRetries - retries
  {
    if retries < maxRetries && Retryable(respond(retries)) {
      BackoffFromEnd(respond, retries + 1, maxRetries, delay * 2);
      BackoffFromShape(respond, retries + 1, maxRetries, delay * 2);
    }
  }

  /** With `maxRetries <= 0` no attempt is made and nothing is returned. */
  lemma BackoffNoAttempt(respond: nat -> Attempt, maxRetries: int, initialDelay: int)
    requires maxRetries <= 0
    ensures Backoff(respond, maxRetries, initialDelay) == Fetched(None, [], 0)
  {
  }

  /** The retry loop makes at most `maxRetries` attempts, sleeps
      `initialDelay * 2^k` after the k-th failed attempt (counting from 0),
      returns the payload of the first status-200 attempt, returns nothing at
      the first fatal exception without sleeping, and otherwise gives up after
      `maxRetries` retryable attempts with one sleep after each. */
  lemma BackoffSpec(respond: nat -> Attempt, maxRetries: int, initialDelay: int)
    requires maxRetries > 0
    ensures var f := Backoff(respond, maxRetries, initialDelay);
      && 1 <= f.attempts <= maxRetries
      && (forall k :: 0 <= k < |f.sleeps| ==> f.sleeps[k] == initialDelay * Pow2(k))
      && (forall k :: 0 <= k < f.attempts - 1 ==> Retryable(respond(k)))
      && (f.result.Some? <==> Succeeded(respond(f.attempts - 1)))
      && (f.result.Some? ==> f.result.value == respond(f.attempts - 1).payload)
      && (Fatal(respond(f.attempts - 1)) ==> f.result.None? && |f.sleeps| == f.attempts - 1)
      && (Retryable(respond(f.attempts - 1)) ==>
            f.result.None? && f.attempts == maxRetries && |f.sleeps| == maxRetries)
  {
    BackoffFromShape(respond, 0, maxRetries, initialDelay);
    BackoffFromEnd(respond, 0, maxRetries, initialDelay);
  }

  // ---------------------------------------------------------------------------
  // The request body

  /** The doctor types the body builder has a branch for. */
  predicate KnownDoctorType(doctorType: string)
  {
    doctorType == "Any" || doctorType == "Family+Doctor" || doctorType == "Specialist"
  }

  /** The form body of a search request, None for a doctor type without a
      branch (the body is then never bound). */
  function RequestBody(postalCode: string, doctorType: string, lastName: string): Option<string>
  {
    if KnownDoctorType(doctorType) then Some(BodyText(postalCode, doctorType, lastName)) else None
  }

  /** The branches of the body builder, in order; for a known doctor type one
      of them applies. */
  function BodyText(postalCode: string, doctorType: string, lastName: string): string
    requires KnownDoctorType(doctorType)
  {
    if doctorType == "Any" then
      "cbx-includeinactive=on&postalCode=" + postalCode + "&doctorType=" + doctorType
    else if doctorType == "Family+Doctor" && lastName == "Any" then
      "cbx-includeinactive=on&postalCode=" + postalCode + "&doctorType=" + doctorType
    else if doctorType == "Specialist" && lastName == "Any" then
      "cbx-includeinactive=on&postalCode=" + postalCode + "&doctorType=" + doctorType
      + "&SpecialistType=" + "Psychiatry"
    else if doctorType == "Family+Doctor" then
      "cbx-includeinactive=on&lastName=" + lastName + "&postalCode=" + postalCode
      + "&doctorType=" + doctorType
    else
      "cbx-includeinactive=on&lastName=" + lastName + "&postalCode=" + postalCode
      + "&doctorType=" + doctorType + "&SpecialistType=" + "Psychiatry"
  }

  /** The search form as a list of fields, stated by what each field depends
      on: the last name only for a specific doctor type and a specific name,
      the specialty only for specialists. */
  function FormFields(postalCode: string, doctorType: string, lastName: string): seq<(string, string)>
  {
    [("cbx-includeinactive", "on")]
    + (if doctorType != "Any" && lastName != "Any" then [("lastName", lastName)] else [])
    + [("postalCode", postalCode), ("doctorType", doctorType)]
    + (if doctorType == "Specialist" then [("SpecialistType", "Psychiatry")] else [])
  }

  /** `application/x-www-form-urlencoded` layout without escaping: `key=value`
      pairs joined by `&`. */
  function EncodeForm(fields: seq<(string, string)>): string
    decreases |fields|
  {
    if fields == [] then ""
    else if |fields| == 1 then fields[0].0 + "=" + fields[0].1
    else EncodeForm(fields[..|fields| - 1]) + "&" + fields[|fields| - 1].0 + "=" + fields[|fields| - 1].1
  }

  function FieldNames(fields: seq<(string, string)>): seq<string>
  {
    seq(|fields|, i requires 0 <= i < |fields| => fields[i].0)
  }

  lemma EncodeSnoc(fields: seq<(string, string)>, f: (string, string))
    requires fields != []
    ensures EncodeForm(fields + [f]) == EncodeForm(fields) + "&" + f.0 + "=" + f.1
  {
    assert (fields + [f])[..|fields|] == fields;
  }

  lemma EncodeOne(f: (string, string))
    ensures EncodeForm([f]) == f.0 + "=" + f.1
  {
  }

  /** Literal pieces of the body templates, split at the field boundaries. */
  lemma TemplatePieces()
    ensures "cbx-includeinactive" + "=" + "on" + "&" + "postalCode" + "=" == "cbx-includeinactive=on&postalCode="
    ensures "cbx-includeinactive" + "=" + "on" + "&" + "lastName" + "=" == "cbx-includeinactive=on&lastName="
    ensures "&" + "postalCode" + "=" == "&postalCode="
    ensures "&" + "doctorType" + "=" == "&doctorType="
    ensures "&" + "SpecialistType" + "=" == "&SpecialistType="
  {
  }

  /** The fields of a search without a last name, encoded. */
  lemma EncodeUnnamed(postalCode: string, doctorType: string)
    ensures EncodeForm([("cbx-includeinactive", "on")] + [("postalCode", postalCode)] + [("doctorType", doctorType)])
              == "cbx-includeinactive=on&postalCode=" + postalCode + "&doctorType=" + doctorType
  {
    var c, pc, dt := ("cbx-includeinactive", "on"), ("postalCode", postalCode), ("doctorType", doctorType);
    var f1 := [c] + [pc];
    var e1 := "cbx-includeinactive=on&postalCode=" + postalCode;
    assert EncodeForm(f1) == e1 by { EncodeOne(c); EncodeSnoc([c], pc); TemplatePieces(); }
    assert EncodeForm(f1 + [dt]) == e1 + "&doctorType=" + doctorType by { EncodeSnoc(f1, dt); TemplatePieces(); }
  }

  /** The fields of a search with a last name, encoded. */
  lemma EncodeNamed(postalCode: string, doctorType: string, lastName: string)
    ensures EncodeForm([("cbx-includeinactive", "on")] + [("lastName", lastName)]
                       + [("postalCode", postalCode)] + [("doctorType", doctorType)])
              == "cbx-includeinactive=on&lastName=" + lastName + "&postalCode=" + postalCode + "&doctorType=" + doctorType
  {
    var c, ln, pc, dt := ("cbx-includeinactive", "on"), ("lastName", lastName), ("postalCode", postalCode), ("doctorType", doctorType);
    var f1 := [c] + [ln];
    var f2 := f1 + [pc];
    var e1 := "cbx-includeinactive=on&lastName=" + lastName;
    var e2 := e1 + "&postalCode=" + postalCode;
    assert EncodeForm(f1) == e1 by { EncodeOne(c); EncodeSnoc([c], ln); TemplatePieces(); }
    assert EncodeForm(f2) == e2 by { EncodeSnoc(f1, pc); TemplatePieces(); }
    assert EncodeForm(f2 + [dt]) == e2 + "&doctorType=" + doctorType by { EncodeSnoc(f2, dt); TemplatePieces(); }
  }

  lemma CaseBase(postalCode: string, doctorType: string, lastName: string)
    requires doctorType == "Any" || (doctorType == "Family+Doctor" && lastName == "Any")
    ensures BodyText(postalCode, doctorType, lastName) == EncodeForm(FormFields(postalCode, doctorType, lastName))
  {
    var c, pc, dt := ("cbx-includeinactive", "on"), ("postalCode", postalCode), ("doctorType", doctorType);
    assert FormFields(postalCode, doctorType, lastName) == [c] + [pc] + [dt];
    EncodeUnnamed(postalCode, doctorType);
  }

  lemma CaseSpecialist(postalCode: string, doctorType: string, lastName: string)
    requires doctorType == "Specialist" && lastName == "Any"
    ensures BodyText(postalCode, doctorType, lastName) == EncodeForm(FormFields(postalCode, doctorType, lastName))
  {
    var c, pc, dt, sp := ("cbx-includeinactive", "on"), ("postalCode", postalCode), ("doctorType", doctorType), ("SpecialistType", "Psychiatry");
    var fields := [c] + [pc] + [dt];
    assert FormFields(postalCode, doctorType, lastName) == fields + [sp];
    EncodeUnnamed(postalCode, doctorType);
    EncodeSnoc(fields, sp);
    TemplatePieces();
  }

  lemma CaseFamilyNamed(postalCode: string, doctorType: string, lastName: string)
    requires doctorType == "Family+Doctor" && lastName != "Any"
    ensures BodyText(postalCode, doctorType, lastName) == EncodeForm(FormFields(postalCode, doctorType, lastName))
  {
    var c, ln, pc, dt := ("cbx-includeinactive", "on"), ("lastName", lastName), ("postalCode", postalCode), ("doctorType", doctorType);
    assert FormFields(postalCode, doctorType, lastName) == [c] + [ln] + [pc] + [dt];
    EncodeNamed(postalCode, doctorType, lastName);
  }

  lemma CaseSpecialistNamed(postalCode: string, doctorType: string, lastName: string)
    requires doctorType == "Specialist" && lastName != "Any"
    ensures BodyText(postalCode, doctorType, lastName) == EncodeForm(FormFields(postalCode, doctorType, lastName))
  {
    var c, ln, pc, dt, sp := ("cbx-includeinactive", "on"), ("lastName", lastName), ("postalCode", postalCode), ("doctorType", doctorType), ("SpecialistType", "Psychiatry");
    var fields := [c] + [ln] + [pc] + [dt];
    assert FormFields(postalCode, doctorType, lastName) == fields + [sp];
    EncodeNamed(postalCode, doctorType, lastName);
    EncodeSnoc(fields, sp);
    TemplatePieces();
  }

  /** Every branch of the body builder encodes the form its field rules
      describe, and a body exists exactly for the three known doctor types. */
  lemma RequestBodyEncodesForm(postalCode: string, doctorType: string, lastName: string)
    ensures RequestBody(postalCode, doctorType, lastName).Some? <==> KnownDoctorType(doctorType)
    ensures KnownDoctorType(doctorType) ==>
              RequestBody(postalCode, doctorType, lastName).value
                == EncodeForm(FormFields(postalCode, doctorType, lastName))
  {
    if doctorType == "Any" || (doctorType == "Family+Doctor" && lastName == "Any") {
      CaseBase(postalCode, doctorType, lastName);
    } else if doctorType == "Specialist" && lastName == "Any" {
      CaseSpecialist(postalCode, doctorType, lastName);
    } else if doctorType == "Family+Doctor" {
      CaseFamilyNamed(postalCode, doctorType, lastName);
    } else if doctorType == "Specialist" {
      CaseSpecialistNamed(postalCode, doctorType, lastName);
    }
  }

  /** Which fields a request carries: `lastName` exactly when neither the
      doctor type nor the last name is "Any", `SpecialistType` exactly for
      specialists, and for "Any" only the three base fields. */
  lemma FormFieldsSpec(postalCode: string, doctorType: string, lastName: string)
    ensures var names := FieldNames(FormFields(postalCode, doctorType, lastName));
      && ("lastName" in names <==> doctorType != "Any" && lastName != "Any")
      && ("SpecialistType" in names <==> doctorType == "Specialist")
      && (doctorType == "Any" ==> names == ["cbx-includeinactive", "postalCode", "doctorType"])
      && "postalCode" in names && "doctorType" in names
  {
    var names := FieldNames(FormFields(postalCode, doctorType, lastName));
    var withName := doctorType != "Any" && lastName != "Any";
    if withName && doctorType == "Specialist" {
      assert names == ["cbx-includeinactive", "lastName", "postalCode", "doctorType", "SpecialistType"];
    } else if withName {
      assert names == ["cbx-includeinactive", "lastName", "postalCode", "doctorType"];
    } else if doctorType == "Specialist" {
      assert names == ["cbx-includeinactive", "postalCode", "doctorType", "SpecialistType"];
    } else {
      assert names == ["cbx-includeinactive", "postalCode", "doctorType"];
    }
  }

  // ---------------------------------------------------------------------------
  // Raw file names

  /** `os.path.join` for two POSIX path parts. */
  function JoinPath(a: string, b: string): string
  {
    if |b| > 0 && b[0] == '/' then b
    else if a == [] || a[|a| - 1] == '/' then a + b
    else a + "/" + b
  }

  /** What follows the postal code in a raw file's name. */
  function RawFileSuffix(doctorType: string, lastName: string): string
  {
    "+" + doctorType + "+" + lastName + ".json"
  }

  /** The file one result is saved to: `{postal_code}+{doctor_type}+{last_name}.json`
      in the `raw` directory under the output directory. */
  function RawFileName(outputDir: string, postalCode: string, doctorType: string, lastName: string): string
  {
    JoinPath(JoinPath(outputDir, "raw"), postalCode + RawFileSuffix(doctorType, lastName))
  }

  /** For a postal code that does not start with '/', the file lies directly in
      the raw directory, whose name ends with "raw", and its own name is the
      postal code followed by the search parameters and ".json". */
  lemma RawFileNameShape(outputDir: string, postalCode: string, doctorType: string, lastName: string)
    requires postalCode == [] || postalCode[0] != '/'
    ensures var dir := JoinPath(outputDir, "raw");
      && |dir| >= 3 && dir[|dir| - 3..] == "raw"
      && RawFileName(outputDir, postalCode, doctorType, lastName)
           == dir + "/" + postalCode + RawFileSuffix(doctorType, lastName)
  {
    var stem := postalCode + RawFileSuffix(doctorType, lastName);
    if postalCode == [] {
      assert stem[0] == '+';
    } else {
      assert stem[0] == postalCode[0];
    }
  }

  lemma CancelAround<T>(a: seq<T>, p: seq<T>, q: seq<T>, b: seq<T>)
    requires a + p + b == a + q + b
    ensures p == q
  {
    var x := a + p + b;
    assert |p| == |q|;
    assert x[|a|..|a| + |p|] == p;
    assert (a + q + b)[|a|..|a| + |q|] == q;
  }

  /** Distinct postal codes searched with the same doctor type and last name
      are saved to distinct files, so no result overwrites another's. */
  lemma RawFileNamesDistinct(outputDir: string, p: string, q: string, doctorType: string, lastName: string)
    requires p != q
    requires (p == [] || p[0] != '/') && (q == [] || q[0] != '/')
    ensures RawFileName(outputDir, p, doctorType, lastName) != RawFileName(outputDir, q, doctorType, lastName)
  {
    RawFileNameShape(outputDir, p, doctorType, lastName);
    RawFileNameShape(outputDir, q, doctorType, lastName);
    if RawFileName(outputDir, p, doctorType, lastName) == RawFileName(outputDir, q, doctorType, lastName) {
      CancelAround(JoinPath(outputDir, "raw") + "/", p, q, RawFileSuffix(doctorType, lastName));
    }
  }

  // ---------------------------------------------------------------------------
  // Collecting the results of a list of postal codes

  /** What the collection loop produces: the tagged results in order, the files
      written as (name, content) pairs in order, and the body sent for each
      postal code. */
  datatype Scrape = Scrape(results: seq<RawRecord>, saved: seq<(string, RawRecord)>, requests: seq<string>)

  /** The class of the error raised when the body was never bound. */
  const UnboundBody: string := "UnboundLocalError"

  /** A result tagged with the postal code it was fetched for. */
  function Tag(data: RawRecord, postalCode: string): RawRecord
  {
    data.(postalCode := Some(postalCode))
  }

  /** How the results are fetched: `exchange(i)(k)` is the outcome of attempt
      `k` of the request for the i-th postal code, retried with the given
      policy. */
  datatype Fetcher = Fetcher(exchange: nat -> nat -> Attempt, maxRetries: int, initialDelay: int)

  /** The payload fetched for the i-th postal code. */
  function FetchedFor(fetcher: Fetcher, i: nat): Option<RawRecord>
  {
    Backoff(fetcher.exchange(i), fetcher.maxRetries, fetcher.initialDelay).result
  }

  /** The i-th postal code's result is kept: a payload came back and it is a
      non-empty object. */
  predicate Kept(fetcher: Fetcher, i: nat)
  {
    FetchedFor(fetcher, i).Some? && IsTruthy(FetchedFor(fetcher, i).value)
  }

  /** The collection loop over `codes`, for a doctor type with a body branch. */
  function Collect(codes: seq<string>, doctorType: string, lastName: string, outputDir: string,
                   fetcher: Fetcher): Scrape
    requires KnownDoctorType(doctorType)
    decreases |codes|
  {
    if codes == [] then Scrape([], [], [])
    else
      var i := |codes| - 1;
      var prev := Collect(codes[..i], doctorType, lastName, outputDir, fetcher);
      var requests := prev.requests + [RequestBody(codes[i], doctorType, lastName).value];
      if Kept(fetcher, i) then
        var data := Tag(FetchedFor(fetcher, i).value, codes[i]);
        Scrape(prev.results + [data],
               prev.saved + [(RawFileName(outputDir, codes[i], doctorType, lastName), data)],
               requests)
      else Scrape(prev.results, prev.saved, requests)
  }

  /** The positions of the postal codes whose results are kept, in order.
      Kept with its own recursion rather than through `Seqs.FilterIndices`
      because the test is on the position (the fetch made for code `i`), not
      on an element of a sequence, and `Collect` recurses the same way. */
  function KeptIndices(n: nat, fetcher: Fetcher): seq<nat>
  {
    if n == 0 then [] else KeptIndices(n - 1, fetcher) + (if Kept(fetcher, n - 1) then [n - 1] else [])
  }

  /** What fetch_results_with_rate_limit returns, or the error it raises. */
  function Scraped(codes: seq<string>, doctorType: string, lastName: string, outputDir: string,
                   fetcher: Fetcher): Result<Scrape, string>
  {
    if codes == [] then Success(Scrape([], [], []))
    else if !KnownDoctorType(doctorType) then Failure(UnboundBody)
    else Success(Collect(codes, doctorType, lastName, outputDir, fetcher))
  }

  /** fetch_results_with_rate_limit with the retry loop's defaults. */
  method FetchResults(codes: seq<string>, doctorType: string, lastName: string, outputDir: string,
                      exchange: nat -> nat -> Attempt)
    returns (r: Result<Scrape, string>)
    ensures r == Scraped(codes, doctorType, lastName, outputDir, Fetcher(exchange, MaxRetries, InitialDelay))
  {
    var fetcher := Fetcher(exchange, MaxRetries, InitialDelay);
    var results: seq<RawRecord> := [];
    var saved: seq<(string, RawRecord)> := [];
    var requests: seq<string> := [];
    var i := 0;
    while i < |codes|
      invariant 0 <= i <= |codes|
      invariant i > 0 ==> KnownDoctorType(doctorType)
      invariant i > 0 ==>
                  Scrape(results, saved, requests) == Collect(codes[..i], doctorType, lastName, outputDir, fetcher)
      invariant i == 0 ==> results == [] && saved == [] && requests == []
    {
      var postalCode := codes[i];
      var body := RequestBody(postalCode, doctorType, lastName);
      if body.None? {
        return Failure(UnboundBody);
      }
      assert codes[..i + 1][..i] == codes[..i];
      var resultData, _, _ := FetchWithBackoff(exchange(i), MaxRetries, InitialDelay);
      requests := requests + [body.value];
      if resultData.Some? && IsTruthy(resultData.value) {
        var data := Tag(resultData.value, postalCode);
        results := results + [data];
        saved := saved + [(RawFileName(outputDir, postalCode, doctorType, lastName), data)];
      }
      i := i + 1;
    }
    assert codes[..i] == codes;
    r := Success(Scrape(results, saved, requests));
  }

  /** The kept positions, in strictly increasing order, are exactly the
      positions whose results are kept. */
  lemma {:induction false} KeptIndicesSpec(n: nat, fetcher: Fetcher)
    ensures var idx := KeptIndices(n, fetcher);
      && |idx| <= n
      && (forall k :: 0 <= k < |idx| ==> idx[k] < n && Kept(fetcher, idx[k]))
      && (forall k, l :: 0 <= k < l < |idx| ==> idx[k] < idx[l])
      && (forall i :: 0 <= i < n ==> (i in idx <==> Kept(fetcher, i)))
  {
    if n > 0 {
      KeptIndicesSpec(n - 1, fetcher);
    }
  }

  /** One body is sent per postal code, in input order. */
  lemma {:induction false} CollectRequests(codes: seq<string>, doctorType: string, lastName: string, outputDir: string,
                                           fetcher: Fetcher)
    requires KnownDoctorType(doctorType)
    ensures var s := Collect(codes, doctorType, lastName, outputDir, fetcher);
      && |s.requests| == |codes|
      && (forall i :: 0 <= i < |codes| ==> s.requests[i] == RequestBody(codes[i], doctorType, lastName).value)
    decreases |codes|
  {
    if codes != [] {
      var n := |codes| - 1;
      CollectRequests(codes[..n], doctorType, lastName, outputDir, fetcher);
      forall i | 0 <= i < n
        ensures codes[i] == codes[..n][i]
      {
      }
    }
  }

  /** The collected results are the fetched payloads of exactly the kept
      postal codes, in input order, each tagged with its own postal code and
      saved under its own file name. */
  lemma {:induction false} CollectResults(codes: seq<string>, doctorType: string, lastName: string, outputDir: string,
                                          fetcher: Fetcher)
    requires KnownDoctorType(doctorType)
    ensures var s := Collect(codes, doctorType, lastName, outputDir, fetcher);
      var idx := KeptIndices(|codes|, fetcher);
      && |s.results| == |idx| == |s.saved|
      && (forall k :: 0 <= k < |idx| ==>
            && idx[k] < |codes| && Kept(fetcher, idx[k])
            && s.results[k] == Tag(FetchedFor(fetcher, idx[k]).value, codes[idx[k]])
            && s.saved[k] == (RawFileName(outputDir, codes[idx[k]], doctorType, lastName), s.results[k]))
    decreases |codes|
  {
    if codes != [] {
      var n := |codes| - 1;
      var init := codes[..n];
      CollectResults(init, doctorType, lastName, outputDir, fetcher);
      var s := Collect(codes, doctorType, lastName, outputDir, fetcher);
      var prev := Collect(init, doctorType, lastName, outputDir, fetcher);
      var idx0 := KeptIndices(n, fetcher);
      var idx := KeptIndices(|codes|, fetcher);
      forall k | 0 <= k < |idx|
        ensures && idx[k] < |codes| && Kept(fetcher, idx[k])
                && s.results[k] == Tag(FetchedFor(fetcher, idx[k]).value, codes[idx[k]])
                && s.saved[k] == (RawFileName(outputDir, codes[idx[k]], doctorType, lastName), s.results[k])
      {
        if k < |idx0| {
          assert idx[k] == idx0[k] && s.results[k] == prev.results[k] && s.saved[k] == prev.saved[k];
          assert codes[idx0[k]] == init[idx0[k]];
        }
      }
    }
  }

  /** So the scrape keeps at most one result per postal code, and each kept
      result carries the postal code it was fetched for. */
  lemma CollectTagsKeys(codes: seq<string>, doctorType: string, lastName: string, outputDir: string,
                        fetcher: Fetcher)
    requires KnownDoctorType(doctorType)
    ensures var s := Collect(codes, doctorType, lastName, outputDir, fetcher);
      && |s.results| <= |codes|
      && (forall k :: 0 <= k < |s.results| ==>
            IsTruthy(s.results[k]) && s.results[k].postalCode.Some? && s.results[k].postalCode.value in codes)
  {
    CollectResults(codes, doctorType, lastName, outputDir, fetcher);
    KeptIndicesSpec(|codes|, fetcher);
  }
}
