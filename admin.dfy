/**
 * The admin side of server/src/handlers/admin.rs that the model keeps: the
 * validation and normalisation of the create-link form, short-code
 * generation, the link-cache updates of `create_link` and `delete_link`, and
 * the analytics breakdowns (`count_field`, `with_pct`).
 *
 * Flash cookies, templates and redirects to the dashboard are not modelled;
 * each handler reports which outcome it reached instead.
 */
module Admin {
  import opened Wrappers
  import opened Strings
  import opened Models
  import Cache

  // ---------------------------------------------------------------------------
  // Validation and normalisation of the create-link form

  /** `CreateLinkForm`: the fields as posted. */
  datatype CreateLinkForm = CreateLinkForm(
    url: string,
    title: Option<string>,
    description: Option<string>,
    customCode: Option<string>)

  /** The reasons the admin handlers turn a request away (each shown as a flash error). */
  datatype AdminError =
    | EmptyUrl          // "URL must not be empty."
    | BadScheme         // "URL must start with http:// or https://"
    | BadCustomCode     // "Custom code may only contain letters, numbers, and hyphens."
    | CodeTaken         // an insert error mentioning UNIQUE
    | DatabaseError     // any other insert error

  const HttpScheme: string := "http://"
  const HttpsScheme: string := "https://"

  /** The URL check of `create_link`: trimmed, not empty, and starting with one of the two schemes. */
  function ValidateUrl(raw: string): (r: Result<string, AdminError>)
    ensures r.Ok? ==> r.value == Trim(raw)
    ensures r.Ok? <==> Trim(raw) != "" && (HttpScheme <= Trim(raw) || HttpsScheme <= Trim(raw))
    ensures r == Err(EmptyUrl) <==> Trim(raw) == ""
    ensures r == Err(BadScheme) <==> Trim(raw) != "" && !(HttpScheme <= Trim(raw)) && !(HttpsScheme <= Trim(raw))
  {
    var url := Trim(raw);
    if url == "" then Err(EmptyUrl)
    else if !(HttpScheme <= url) && !(HttpsScheme <= url) then Err(BadScheme)
    else Ok(url)
  }

  /** An accepted URL is accepted again unchanged: validation is a normalisation. */
  lemma {:induction false} ValidateUrlIdempotent(raw: string)
    requires ValidateUrl(raw).Ok?
    ensures ValidateUrl(ValidateUrl(raw).value) == ValidateUrl(raw)
  {
    TrimIdempotent(raw);
  }

  predicate IsAsciiAlphanumeric(c: char) {
    ('a' <= c <= 'z') || ('A' <= c <= 'Z') || ('0' <= c <= '9')
  }

  /** The characters a custom short code may contain: letters, digits and '-'. */
  predicate IsCodeChar(c: char) {
    IsAsciiAlphanumeric(c) || c == '-'
  }

  predicate IsCodeText(s: string) {
    forall i :: 0 <= i < |s| ==> IsCodeChar(s[i])
  }

  /** How the short code is chosen. */
  datatype CodeChoice = UseCustom(code: string) | GenerateCode | RejectCode

  /**
   * The custom-code step of `create_link`: a missing or blank code means a
   * code is generated; otherwise the trimmed code is used when it consists of
   * letters, digits and '-' only, and rejected when it holds anything else.
   */
  function ChooseCode(customCode: Option<string>): (r: CodeChoice)
    ensures r == GenerateCode <==> customCode.None? || Trim(customCode.value) == ""
    ensures r.UseCustom? <==> customCode.Some? && Trim(customCode.value) != "" && IsCodeText(Trim(customCode.value))
    ensures r.UseCustom? ==> r.code == Trim(customCode.value) && r.code != ""
    ensures r == RejectCode <==>
      customCode.Some? && Trim(customCode.value) != "" &&
      exists i :: 0 <= i < |Trim(customCode.value)| && !IsCodeChar(Trim(customCode.value)[i])
  {
    match customCode
    case None => GenerateCode
    case Some(raw) =>
      var code := Trim(raw);
      if code == "" then GenerateCode
      else if IsCodeText(code) then UseCustom(code)
      else RejectCode
  }

  /** The title and description step: trimmed, and dropped when nothing is left. */
  function NonEmptyTrimmed(o: Option<string>): (r: Option<string>)
    ensures r.Some? <==> o.Some? && Trim(o.value) != ""
    ensures r.Some? ==> r.value == Trim(o.value)
  {
    match o
    case Some(s) => if Trim(s) != "" then Some(Trim(s)) else None
    case None => None
  }

  /** Normalising an optional field twice changes nothing more. */
  lemma {:induction false} NonEmptyTrimmedIdempotent(o: Option<string>)
    ensures NonEmptyTrimmed(NonEmptyTrimmed(o)) == NonEmptyTrimmed(o)
  {
    if o.Some? {
      TrimIdempotent(o.value);
    }
  }

  /** A form that passed validation: the short code is `None` when one is to be generated. */
  datatype Draft = Draft(url: string, code: Option<string>, title: Option<string>, description: Option<string>)

  /**
   * The checks of `create_link` in their order: the URL first, then the custom
   * code; title and description never cause a rejection.
   */
  function ValidateForm(form: CreateLinkForm): (r: Result<Draft, AdminError>)
    ensures ValidateUrl(form.url).Err? ==> r == Err(ValidateUrl(form.url).error)
    ensures ValidateUrl(form.url).Ok? && ChooseCode(form.customCode) == RejectCode ==> r == Err(BadCustomCode)
    ensures r.Ok? <==> ValidateUrl(form.url).Ok? && ChooseCode(form.customCode) != RejectCode
    ensures r.Ok? ==>
      && r.value.url == ValidateUrl(form.url).value
      && (r.value.code.None? <==> ChooseCode(form.customCode) == GenerateCode)
      && (r.value.code.Some? ==> ChooseCode(form.customCode) == UseCustom(r.value.code.value))
      && r.value.title == NonEmptyTrimmed(form.title)
      && r.value.description == NonEmptyTrimmed(form.description)
  {
    match ValidateUrl(form.url)
    case Err(e) => Err(e)
    case Ok(url) =>
      match ChooseCode(form.customCode)
      case RejectCode => Err(BadCustomCode)
      case GenerateCode => Ok(Draft(url, None, NonEmptyTrimmed(form.title), NonEmptyTrimmed(form.description)))
      case UseCustom(code) => Ok(Draft(url, Some(code), NonEmptyTrimmed(form.title), NonEmptyTrimmed(form.description)))
  }

  // ---------------------------------------------------------------------------
  // Short-code generation

  /** The characters from `first` on, `n` of them in code-point order. */
  function CharRange(first: char, n: nat): (r: string)
    requires first as int + n <= 0xD800
    ensures |r| == n
    ensures forall i :: 0 <= i < n ==> r[i] as int == first as int + i
  {
    seq(n, i requires 0 <= i < n => (first as int + i) as char)
  }

  /** The 62 characters `random_code` draws from: a-z, then A-Z, then 0-9. */
  const Alphabet: string := CharRange('a', 26) + CharRange('A', 26) + CharRange('0', 10)

  const CodeLength: nat := 7
  const FallbackCodeLength: nat := 9
  const CodeAttempts: nat := 10

  /** Draws of `gen_range(0..62)` the generator needs at most: ten 7-character tries and the 9-character fallback. */
  const DrawsNeeded: nat := CodeAttempts * CodeLength + FallbackCodeLength

  /** A stream of draws of `rng.gen_range(0..ALPHABET.len())`. */
  predicate ValidDraws(draws: seq<nat>) {
    forall i :: 0 <= i < |draws| ==> draws[i] < |Alphabet|
  }

  /** `random_code(len)`: the characters of the alphabet picked by the next `len` draws. */
  function RandomCode(len: nat, draws: seq<nat>): (code: string)
    requires len <= |draws| && ValidDraws(draws)
    ensures |code| == len
    ensures forall i :: 0 <= i < len ==> code[i] == Alphabet[draws[i]]
  {
    if len == 0 then [] else RandomCode(len - 1, draws) + [Alphabet[draws[len - 1]]]
  }

  lemma AlphabetIsCodeText()
    ensures |Alphabet| == 62 && IsCodeText(Alphabet)
  {
    assert forall i :: 0 <= i < 26 ==> 'a' <= Alphabet[i] <= 'z';
    assert forall i :: 26 <= i < 52 ==> 'A' <= Alphabet[i] <= 'Z';
    assert forall i :: 52 <= i < 62 ==> '0' <= Alphabet[i] <= '9';
  }

  /** Every random code consists of letters and digits only, so it would also pass as a custom code. */
  lemma {:induction false} RandomCodeIsCodeText(len: nat, draws: seq<nat>)
    requires len <= |draws| && ValidDraws(draws)
    ensures IsCodeText(RandomCode(len, draws))
    ensures len > 0 ==> ChooseCode(Some(RandomCode(len, draws))) == UseCustom(RandomCode(len, draws))
  {
    AlphabetIsCodeText();
    var code := RandomCode(len, draws);
    assert forall i :: 0 <= i < len ==> code[i] == Alphabet[draws[i]];
    if len > 0 {
      TrimFixesTrimmed(code);
    }
  }

  /** The `k`-th 7-character candidate that `generate_unique_code` tries. */
  function Candidate(draws: seq<nat>, k: nat): (code: string)
    requires CodeLength * (k + 1) <= |draws| && ValidDraws(draws)
    ensures |code| == CodeLength
  {
    RandomCode(CodeLength, draws[CodeLength * k..])
  }

  /** The 9-character code used when all ten candidates were reported taken. */
  function Fallback(draws: seq<nat>): (code: string)
    requires DrawsNeeded <= |draws| && ValidDraws(draws)
    ensures |code| == FallbackCodeLength
  {
    RandomCode(FallbackCodeLength, draws[CodeAttempts * CodeLength..])
  }

  /** The store reports `code` as unused; a read error counts as taken. */
  predicate ReportedFree(lookup: CodeLookup, code: string) {
    lookup(code) == Found(None)
  }

  /**
   * The code `generate_unique_code` settles on when the candidates from the
   * `k`-th on are still to be tried: the first one reported free, or the
   * fallback once all ten have failed.
   */
  function CodeFrom(draws: seq<nat>, lookup: CodeLookup, k: nat): (code: string)
    requires DrawsNeeded <= |draws| && ValidDraws(draws) && k <= CodeAttempts
    ensures |code| == CodeLength ==> ReportedFree(lookup, code)
    ensures |code| == FallbackCodeLength ==> code == Fallback(draws)
    ensures |code| == CodeLength || |code| == FallbackCodeLength
    ensures IsCodeText(code)
    decreases CodeAttempts - k
  {
    if k == CodeAttempts then
      RandomCodeIsCodeText(FallbackCodeLength, draws[CodeAttempts * CodeLength..]);
      Fallback(draws)
    else if ReportedFree(lookup, Candidate(draws, k)) then
      RandomCodeIsCodeText(CodeLength, draws[CodeLength * k..]);
      Candidate(draws, k)
    else CodeFrom(draws, lookup, k + 1)
  }

  /** The code `generate_unique_code` returns for these draws and this store. */
  function UniqueCode(draws: seq<nat>, lookup: CodeLookup): (code: string)
    requires DrawsNeeded <= |draws| && ValidDraws(draws)
    ensures |code| == CodeLength || |code| == FallbackCodeLength
    ensures |code| == CodeLength ==> ReportedFree(lookup, code)
    ensures IsCodeText(code)
  {
    CodeFrom(draws, lookup, 0)
  }

  /**
   * `generate_unique_code`: asks the store about up to ten fresh 7-character
   * candidates and returns the first one reported unused; after ten failures
   * (taken or a read error) it returns a 9-character code without asking.
   * `lookups` counts the store queries made.
   */
  method GenerateUniqueCode(draws: seq<nat>, lookup: CodeLookup) returns (code: string, lookups: nat)
    requires DrawsNeeded <= |draws| && ValidDraws(draws)
    ensures code == UniqueCode(draws, lookup)
    ensures 1 <= lookups <= CodeAttempts
    ensures |code| == CodeLength || |code| == FallbackCodeLength
    ensures forall k :: 0 <= k < lookups - 1 ==> !ReportedFree(lookup, Candidate(draws, k))
    ensures |code| == CodeLength ==> code == Candidate(draws, lookups - 1) && ReportedFree(lookup, code)
    ensures |code| == FallbackCodeLength ==>
      lookups == CodeAttempts && !ReportedFree(lookup, Candidate(draws, CodeAttempts - 1)) && code == Fallback(draws)
  {
    var attempt: nat := 0;
    while attempt < CodeAttempts
      invariant attempt <= CodeAttempts
      invariant forall k :: 0 <= k < attempt ==> !ReportedFree(lookup, Candidate(draws, k))
      invariant UniqueCode(draws, lookup) == CodeFrom(draws, lookup, attempt)
    {
      var candidate := Candidate(draws, attempt);
      if lookup(candidate) == Found(None) {
        assert CodeFrom(draws, lookup, attempt) == candidate;
        return candidate, attempt + 1;
      }
      assert CodeFrom(draws, lookup, attempt) == CodeFrom(draws, lookup, attempt + 1);
      attempt := attempt + 1;
    }
    assert CodeFrom(draws, lookup, CodeAttempts) == Fallback(draws);
    return Fallback(draws), CodeAttempts;
  }

  // ---------------------------------------------------------------------------
  // Creating and deleting links, and the cache

  /** How `db::create_link` fares: the new row's id, a UNIQUE violation, or another error. */
  datatype InsertReply = Inserted(id: int) | UniqueViolation | InsertFailed

  /** `db::create_link(short_code, url, title, description)`. */
  type Inserter = (string, string, Option<string>, Option<string>) -> InsertReply

  datatype CreateOutcome = Created(link: Link) | Rejected(error: AdminError)

  /**
   * `create_link` (POST /admin/links). A valid form is inserted under its
   * custom code or a generated one; on success the cache maps the new code to
   * the URL at once. Every rejection leaves the cache as it was. The row that
   * `db::create_link` reads back is taken to hold the values just inserted.
   */
  method CreateLink(cache: Cache.LinkCache, form: CreateLinkForm, draws: seq<nat>, lookup: CodeLookup, insert: Inserter)
    returns (outcome: CreateOutcome)
    requires DrawsNeeded <= |draws| && ValidDraws(draws)
    modifies cache
    ensures ValidateForm(form).Err? ==> outcome == Rejected(ValidateForm(form).error)
    ensures ValidateForm(form).Ok? ==>
      var draft := ValidateForm(form).value;
      var code := if draft.code.Some? then draft.code.value else UniqueCode(draws, lookup);
      match insert(code, draft.url, draft.title, draft.description)
      case Inserted(id) =>
        && outcome == Created(Link(id, code, draft.url, draft.title, draft.description, true))
        && cache.inner == old(cache.inner)[code := draft.url]
      case UniqueViolation => outcome == Rejected(CodeTaken)
      case InsertFailed => outcome == Rejected(DatabaseError)
    ensures outcome.Rejected? ==> cache.inner == old(cache.inner)
    ensures outcome.Rejected? && ValidateForm(form).Ok? ==> outcome.error == CodeTaken || outcome.error == DatabaseError
    ensures outcome.Created? ==>
      var draft := ValidateForm(form).value;
      var link := outcome.link;
      && ValidateForm(form).Ok?
      && cache.inner == old(cache.inner)[link.shortCode := link.originalUrl]
      && link.originalUrl == draft.url && link.title == draft.title && link.description == draft.description
      && link.isActive
      && insert(link.shortCode, draft.url, draft.title, draft.description) == Inserted(link.id)
      && (draft.code.Some? ==> link.shortCode == draft.code.value)
      && (draft.code.None? ==> (|link.shortCode| == CodeLength || |link.shortCode| == FallbackCodeLength)
                               && IsCodeText(link.shortCode))
  {
    var validated := ValidateForm(form);
    if validated.Err? {
      return Rejected(validated.error);
    }
    var draft := validated.value;
    var shortCode: string;
    if draft.code.Some? {
      shortCode := draft.code.value;
    } else {
      var lookups;
      shortCode, lookups := GenerateUniqueCode(draws, lookup);
    }
    match insert(shortCode, draft.url, draft.title, draft.description) {
      case Inserted(id) =>
        var link := Link(id, shortCode, draft.url, draft.title, draft.description, true);
        cache.Set(link.shortCode, link.originalUrl);
        outcome := Created(link);
      case UniqueViolation =>
        outcome := Rejected(CodeTaken);
      case InsertFailed =>
        outcome := Rejected(DatabaseError);
    }
  }

  /** How `delete_link` ends. */
  datatype DeleteOutcome =
    | Deleted(shortCode: string)  // "Link '<code>' deleted."
    | NoSuchLink                  // "Link not found.": no row with this id, or none was deleted
    | LookupError                 // "Database error while looking up link."
    | DeleteError                 // "Failed to delete link."

  /**
   * `delete_link` (POST /admin/links/:id/delete): reads the row by id (any
   * status) to learn its code, deletes it, and evicts the code from the cache
   * only when the store reports a row deleted. Every other path leaves the
   * cache as it was; the delete is not attempted when the read fails.
   */
  method DeleteLink(cache: Cache.LinkCache, id: int,
                    getLinkById: int -> DbResult<Option<Link>>, deleteById: int -> DbResult<bool>)
    returns (outcome: DeleteOutcome, deletes: nat)
    modifies cache
    ensures getLinkById(id).DbError? ==> outcome == LookupError && deletes == 0
    ensures getLinkById(id) == Found(None) ==> outcome == NoSuchLink && deletes == 0
    ensures getLinkById(id).Found? && getLinkById(id).value.Some? ==>
      deletes == 1 &&
      outcome == match deleteById(id)
        case Found(true) => Deleted(getLinkById(id).value.value.shortCode)
        case Found(false) => NoSuchLink
        case DbError => DeleteError
    ensures outcome.Deleted? ==> cache.inner == old(cache.inner) - {outcome.shortCode}
    ensures !outcome.Deleted? ==> cache.inner == old(cache.inner)
  {
    var link: Link;
    match getLinkById(id) {
      case Found(Some(l)) => link := l;
      case Found(None) => return NoSuchLink, 0;
      case DbError => return LookupError, 0;
    }
    deletes := 1;
    match deleteById(id) {
      case Found(true) =>
        cache.Remove(link.shortCode);
        outcome := Deleted(link.shortCode);
      case Found(false) =>
        outcome := NoSuchLink;
      case DbError =>
        outcome := DeleteError;
    }
  }

  // ---------------------------------------------------------------------------
  // Analytics breakdowns

  /** How many of `vals` are `Some(v)`. */
  function Occurrences(vals: seq<Option<string>>, v: string): (n: nat)
    ensures n <= |vals|
  {
    if vals == [] then 0
    else Occurrences(vals[..|vals| - 1], v) + (if vals[|vals| - 1] == Some(v) then 1 else 0)
  }

  /** `Occurrences` is the multiplicity of `Some(v)` in the column. */
  lemma {:induction false} OccurrencesIsMultiplicity(vals: seq<Option<string>>, v: string)
    ensures Occurrences(vals, v) == multiset(vals)[Some(v)]
  {
    if vals != [] {
      assert vals == vals[..|vals| - 1] + [vals[|vals| - 1]];
      OccurrencesIsMultiplicity(vals[..|vals| - 1], v);
    }
  }

  /** A breakdown row: a value and how many clicks carry it. */
  type Row = (string, int)

  predicate DistinctNames(rows: seq<Row>) {
    forall i, j :: 0 <= i < j < |rows| ==> rows[i].0 != rows[j].0
  }

  predicate CountsDescending(rows: seq<Row>) {
    forall i, j :: 0 <= i < j < |rows| ==> rows[i].1 >= rows[j].1
  }

  /** How many rows a breakdown keeps. */
  const TopRows: nat := 10

  /** Places `e` before the first row whose count is not larger than its own. */
  function InsertByCount(e: Row, rows: seq<Row>): (r: seq<Row>)
    ensures |r| == |rows| + 1
    ensures forall x :: x in r <==> x == e || x in rows
  {
    if rows == [] || e.1 >= rows[0].1 then [e] + rows
    else [rows[0]] + InsertByCount(e, rows[1..])
  }

  lemma {:induction false} InsertByCountPermutes(e: Row, rows: seq<Row>)
    ensures multiset(InsertByCount(e, rows)) == multiset(rows) + multiset{e}
  {
    if rows != [] && e.1 < rows[0].1 {
      InsertByCountPermutes(e, rows[1..]);
      assert rows == [rows[0]] + rows[1..];
    }
  }

  lemma {:induction false} InsertByCountOrders(e: Row, rows: seq<Row>)
    requires CountsDescending(rows)
    ensures CountsDescending(InsertByCount(e, rows))
  {
    if rows == [] || e.1 >= rows[0].1 {
      ConsDescending(e, rows);
    } else {
      var tail := rows[1..];
      assert CountsDescending(tail) by {
        forall i, j | 0 <= i < j < |tail| ensures tail[i].1 >= tail[j].1 {
          assert tail[i] == rows[i + 1] && tail[j] == rows[j + 1];
        }
      }
      assert forall i :: 0 <= i < |tail| ==> tail[i].1 <= rows[0].1 by {
        forall i | 0 <= i < |tail| ensures tail[i].1 <= rows[0].1 {
          assert tail[i] == rows[i + 1];
        }
      }
      InsertByCountOrders(e, tail);
      InsertByCountBounded(e, tail, rows[0].1);
      ConsDescending(rows[0], InsertByCount(e, tail));
    }
  }

  /** Rows with counts at most `c`, and a new one within `c`, still have counts at most `c`. */
  lemma {:induction false} InsertByCountBounded(e: Row, rows: seq<Row>, c: int)
    requires e.1 <= c && forall i :: 0 <= i < |rows| ==> rows[i].1 <= c
    ensures forall i :: 0 <= i < |rows| + 1 ==> InsertByCount(e, rows)[i].1 <= c
  {
    if rows != [] && e.1 < rows[0].1 {
      var tail := rows[1..];
      assert forall i :: 0 <= i < |tail| ==> tail[i].1 <= c by {
        forall i | 0 <= i < |tail| ensures tail[i].1 <= c {
          assert tail[i] == rows[i + 1];
        }
      }
      InsertByCountBounded(e, tail, c);
      var r := InsertByCount(e, rows);
      forall i | 0 <= i < |rows| + 1 ensures r[i].1 <= c {
        if i > 0 {
          assert r[i] == InsertByCount(e, tail)[i - 1];
        }
      }
    }
  }

  /** A row counting at least as much as every row of a descending list can head it. */
  lemma ConsDescending(h: Row, t: seq<Row>)
    requires CountsDescending(t) && forall i :: 0 <= i < |t| ==> t[i].1 <= h.1
    ensures CountsDescending([h] + t)
  {
    var r := [h] + t;
    forall i, j | 0 <= i < j < |r| ensures r[i].1 >= r[j].1 {
      assert r[j] == t[j - 1];
      if i > 0 {
        assert r[i] == t[i - 1];
      }
    }
  }

  lemma {:induction false} InsertByCountKeepsNamesDistinct(e: Row, rows: seq<Row>)
    requires DistinctNames(rows) && forall i :: 0 <= i < |rows| ==> rows[i].0 != e.0
    ensures DistinctNames(InsertByCount(e, rows))
  {
    if rows == [] || e.1 >= rows[0].1 {
      ConsDistinct(e, rows);
    } else {
      var tail := rows[1..];
      assert DistinctNames(tail) by {
        forall i, j | 0 <= i < j < |tail| ensures tail[i].0 != tail[j].0 {
          assert tail[i] == rows[i + 1] && tail[j] == rows[j + 1];
        }
      }
      assert forall i :: 0 <= i < |tail| ==> tail[i].0 != e.0 && tail[i].0 != rows[0].0 by {
        forall i | 0 <= i < |tail| ensures tail[i].0 != e.0 && tail[i].0 != rows[0].0 {
          assert tail[i] == rows[i + 1];
        }
      }
      InsertByCountKeepsNamesDistinct(e, tail);
      InsertByCountAvoids(e, tail, rows[0].0);
      ConsDistinct(rows[0], InsertByCount(e, tail));
    }
  }

  /** Inserting a row not named `name` into rows not named `name` gives rows not named `name`. */
  lemma {:induction false} InsertByCountAvoids(e: Row, rows: seq<Row>, name: string)
    requires e.0 != name && forall i :: 0 <= i < |rows| ==> rows[i].0 != name
    ensures forall i :: 0 <= i < |rows| + 1 ==> InsertByCount(e, rows)[i].0 != name
  {
    if rows != [] && e.1 < rows[0].1 {
      var tail := rows[1..];
      assert forall i :: 0 <= i < |tail| ==> tail[i].0 != name by {
        forall i | 0 <= i < |tail| ensures tail[i].0 != name {
          assert tail[i] == rows[i + 1];
        }
      }
      InsertByCountAvoids(e, tail, name);
      var r := InsertByCount(e, rows);
      forall i | 0 <= i < |rows| + 1 ensures r[i].0 != name {
        if i > 0 {
          assert r[i] == InsertByCount(e, tail)[i - 1];
        }
      }
    }
  }

  /** A row whose name no row of a distinct list carries can head it. */
  lemma ConsDistinct(h: Row, t: seq<Row>)
    requires DistinctNames(t) && forall i :: 0 <= i < |t| ==> t[i].0 != h.0
    ensures DistinctNames([h] + t)
  {
    var r := [h] + t;
    forall i, j | 0 <= i < j < |r| ensures r[i].0 != r[j].0 {
      assert r[j] == t[j - 1];
      if i > 0 {
        assert r[i] == t[i - 1];
      }
    }
  }

  /** `sort_by(|a, b| b.1.cmp(&a.1))`: the rows reordered by count, largest first. */
  function SortByCount(rows: seq<Row>): (r: seq<Row>)
    ensures |r| == |rows|
    ensures forall x :: x in r <==> x in rows
  {
    if rows == [] then []
    else InsertByCount(rows[0], SortByCount(rows[1..]))
  }

  /** Sorting reorders the rows: the same rows, each as often. */
  lemma {:induction false} SortByCountPermutes(rows: seq<Row>)
    ensures multiset(SortByCount(rows)) == multiset(rows)
  {
    if rows != [] {
      SortByCountPermutes(rows[1..]);
      InsertByCountPermutes(rows[0], SortByCount(rows[1..]));
      assert rows == [rows[0]] + rows[1..];
    }
  }

  /** Sorted rows have non-increasing counts. */
  lemma {:induction false} SortByCountOrders(rows: seq<Row>)
    ensures CountsDescending(SortByCount(rows))
  {
    if rows != [] {
      SortByCountOrders(rows[1..]);
      InsertByCountOrders(rows[0], SortByCount(rows[1..]));
    }
  }

  /** Sorting rows with distinct names keeps them distinct. */
  lemma {:induction false} SortByCountKeepsNamesDistinct(rows: seq<Row>)
    requires DistinctNames(rows)
    ensures DistinctNames(SortByCount(rows))
  {
    if rows != [] {
      var tail := rows[1..];
      assert DistinctNames(tail) by {
        forall i, j | 0 <= i < j < |tail| ensures tail[i].0 != tail[j].0 {
          assert tail[i] == rows[i + 1] && tail[j] == rows[j + 1];
        }
      }
      SortByCountKeepsNamesDistinct(tail);
      var sorted := SortByCount(tail);
      forall i | 0 <= i < |sorted| ensures sorted[i].0 != rows[0].0 {
        assert sorted[i] in tail;
        var j :| 0 <= j < |tail| && tail[j] == sorted[i];
        assert rows[1 + j] == sorted[i];
      }
      InsertByCountKeepsNamesDistinct(rows[0], sorted);
    }
  }

  /** The tally loop of `count_field`: each non-empty value mapped to its number of occurrences. */
  method Tally(vals: seq<Option<string>>) returns (counts: map<string, int>)
    ensures Tallies(counts, vals)
  {
    counts := map[];
    var n := 0;
    while n < |vals|
      invariant n <= |vals|
      invariant forall v :: v in counts <==> v != "" && Occurrences(vals[..n], v) > 0
      invariant forall v :: v in counts ==> counts[v] == Occurrences(vals[..n], v)
    {
      assert vals[..n + 1][..n] == vals[..n];
      if vals[n].Some? && vals[n].value != "" {
        var v := vals[n].value;
        counts := counts[v := (if v in counts then counts[v] else 0) + 1];
      }
      n := n + 1;
    }
    assert vals[..n] == vals;
  }

  /** `HashMap::into_iter().collect()`: every entry once, in no particular order. */
  method Entries(counts: map<string, int>) returns (rows: seq<Row>)
    ensures ListsEntries(rows, counts)
    ensures DistinctNames(rows)
  {
    rows := [];
    var rest := counts.Keys;
    while rest != {}
      invariant rest <= counts.Keys
      invariant forall x :: x in rows ==> x.0 in counts && x.0 !in rest && x.1 == counts[x.0]
      invariant forall k :: k in counts && k !in rest ==> (k, counts[k]) in rows
      invariant DistinctNames(rows)
      decreases rest
    {
      var k :| k in rest;
      rows := rows + [(k, counts[k])];
      rest := rest - {k};
    }
  }

  /**
   * A row of a sorted list whose name is none of the first `n` lies beyond
   * them, and counts no more than any of them.
   */
  lemma {:induction false} PrefixDominates(sorted: seq<Row>, n: nat, x: Row)
    requires CountsDescending(sorted) && n <= |sorted| && x in sorted
    requires forall i :: 0 <= i < n ==> sorted[i].0 != x.0
    ensures n < |sorted|
    ensures forall i :: 0 <= i < n ==> sorted[i].1 >= x.1
  {
    var p :| 0 <= p < |sorted| && sorted[p] == x;
  }

  /** `counts` is the tally of the non-empty values of `vals`. */
  ghost predicate Tallies(counts: map<string, int>, vals: seq<Option<string>>) {
    && (forall v :: v in counts <==> v != "" && Occurrences(vals, v) > 0)
    && (forall v :: v in counts ==> counts[v] == Occurrences(vals, v))
  }

  /** `rows` lists the entries of `counts`, each once. */
  ghost predicate ListsEntries(rows: seq<Row>, counts: map<string, int>) {
    && (forall x :: x in rows ==> x.0 in counts && x.1 == counts[x.0])
    && (forall k :: k in counts ==> (k, counts[k]) in rows)
  }

  /** `sort_by` followed by `truncate(10)`. */
  function TopByCount(rows: seq<Row>): (top: seq<Row>)
    ensures |top| <= TopRows && |top| <= |rows|
  {
    var sorted := SortByCount(rows);
    if |sorted| <= TopRows then sorted else sorted[..TopRows]
  }

  /** The kept rows are ordered by count and, given distinct names, still distinct. */
  lemma {:induction false} TopByCountOrdered(rows: seq<Row>)
    requires DistinctNames(rows)
    ensures DistinctNames(TopByCount(rows)) && CountsDescending(TopByCount(rows))
  {
    SortByCountOrders(rows);
    SortByCountKeepsNamesDistinct(rows);
  }

  /** Every kept row is a tallied value with its number of occurrences. */
  lemma {:induction false} TopByCountTallied(vals: seq<Option<string>>, counts: map<string, int>, rows: seq<Row>)
    requires Tallies(counts, vals) && ListsEntries(rows, counts)
    ensures var top := TopByCount(rows);
      forall i :: 0 <= i < |top| ==> top[i].0 != "" && top[i].1 == Occurrences(vals, top[i].0) > 0
  {
    var sorted := SortByCount(rows);
    var top := TopByCount(rows);
    forall i | 0 <= i < |top|
      ensures top[i].0 != "" && top[i].1 == Occurrences(vals, top[i].0) > 0
    {
      assert top[i] == sorted[i];
      assert sorted[i] in rows;
    }
  }

  /** Every tallied value left out counts no more than any kept row, and then ten rows were kept. */
  lemma {:induction false} TopByCountDominates(vals: seq<Option<string>>, counts: map<string, int>, rows: seq<Row>)
    requires Tallies(counts, vals) && ListsEntries(rows, counts)
    ensures var top := TopByCount(rows);
      forall v :: v != "" && Occurrences(vals, v) > 0 && (forall i :: 0 <= i < |top| ==> top[i].0 != v) ==>
        |top| == TopRows && forall i :: 0 <= i < |top| ==> top[i].1 >= Occurrences(vals, v)
  {
    var sorted := SortByCount(rows);
    var top := TopByCount(rows);
    SortByCountOrders(rows);
    forall v | v != "" && Occurrences(vals, v) > 0 && (forall i :: 0 <= i < |top| ==> top[i].0 != v)
      ensures |top| == TopRows && forall i :: 0 <= i < |top| ==> top[i].1 >= Occurrences(vals, v)
    {
      assert (v, counts[v]) in sorted;
      assert forall i :: 0 <= i < |top| ==> sorted[i] == top[i];
      PrefixDominates(sorted, |top|, (v, counts[v]));
    }
  }

  /**
   * `count_field`: tallies the non-empty values of one click column, orders
   * the (value, count) pairs by count, largest first, and keeps the first ten.
   * Ties come out in an unspecified order, as the source's hash-map iteration
   * leaves them; every value left out has a count no larger than any kept.
   */
  method CountField(vals: seq<Option<string>>) returns (top: seq<Row>)
    ensures |top| <= TopRows
    ensures DistinctNames(top) && CountsDescending(top)
    ensures forall i :: 0 <= i < |top| ==> top[i].0 != "" && top[i].1 == Occurrences(vals, top[i].0) > 0
    ensures forall v :: v != "" && Occurrences(vals, v) > 0 && (forall i :: 0 <= i < |top| ==> top[i].0 != v) ==>
      |top| == TopRows && forall i :: 0 <= i < |top| ==> top[i].1 >= Occurrences(vals, v)
  {
    var counts := Tally(vals);
    var rows := Entries(counts);
    TopByCountOrdered(rows);
    TopByCountTallied(vals, counts, rows);
    TopByCountDominates(vals, counts, rows);
    top := TopByCount(rows);
  }

  /** `count * 100 / total` on `i64`: Rust's division truncates toward zero. */
  function Percent(count: int, total: int): (pct: int)
    ensures total <= 0 ==> pct == 0
    ensures total > 0 && count >= 0 ==> pct * total <= count * 100 < (pct + 1) * total
  {
    if total <= 0 then 0
    else if count >= 0 then (count * 100) / total
    else -((-count * 100) / total)
  }

  /** Comparing two multiples of the same positive number compares the factors. */
  lemma ScaledLe(a: int, b: int, t: int)
    requires t > 0
    ensures a * t <= b * t ==> a <= b
    ensures a * t < b * t ==> a < b
  {
    if a > b {
      assert (a - b) * t > 0;
    }
  }

  /** A share of the total is a percentage between 0 and 100. */
  lemma PercentBounds(count: int, total: int)
    requires 0 <= count <= total
    ensures 0 <= Percent(count, total) <= 100
  {
    if total > 0 {
      var pct := Percent(count, total);
      ScaledLe(pct, 100, total);
      ScaledLe(-1, pct, total);
    }
  }

  /** A row with its percentage of the link's total clicks. */
  type PctRow = (string, int, int)

  /** `with_pct`: the rows in the same order, each with its share of `total`. */
  function WithPct(items: seq<Row>, total: int): (r: seq<PctRow>)
    ensures |r| == |items|
    ensures forall i :: 0 <= i < |r| ==>
      r[i].0 == items[i].0 && r[i].1 == items[i].1 && r[i].2 == Percent(items[i].1, total)
  {
    if items == [] then []
    else WithPct(items[..|items| - 1], total) + [(items[|items| - 1].0, items[|items| - 1].1, Percent(items[|items| - 1].1, total))]
  }

  function SumCounts(rows: seq<Row>): int
  {
    if rows == [] then 0 else SumCounts(rows[..|rows| - 1]) + rows[|rows| - 1].1
  }

  function SumPercents(rows: seq<PctRow>): int
  {
    if rows == [] then 0 else SumPercents(rows[..|rows| - 1]) + rows[|rows| - 1].2
  }

  lemma AddScaled(a: int, b: int, c: int, d: int, t: int)
    requires a * t <= c && b * t <= d
    ensures (a + b) * t <= c + d
  {
  }

  /** Truncated shares never add up to more than the share of the sum. */
  lemma {:induction false} PercentsAtMostShareOfSum(items: seq<Row>, total: int)
    requires total > 0
    requires forall i :: 0 <= i < |items| ==> items[i].1 >= 0
    ensures SumPercents(WithPct(items, total)) * total <= SumCounts(items) * 100
  {
    if items != [] {
      var init := items[..|items| - 1];
      var last := items[|items| - 1];
      PercentsAtMostShareOfSum(init, total);
      assert WithPct(items, total)[..|items| - 1] == WithPct(init, total);
      var before := SumPercents(WithPct(init, total));
      var p := Percent(last.1, total);
      assert SumPercents(WithPct(items, total)) == before + p;
      assert SumCounts(items) * 100 == SumCounts(init) * 100 + last.1 * 100;
      AddScaled(before, p, SumCounts(init) * 100, last.1 * 100, total);
    }
  }

  /** Over counts that together do not exceed the total, the percentages add up to at most 100. */
  lemma {:induction false} PercentsSumAtMost100(items: seq<Row>, total: int)
    requires total > 0
    requires forall i :: 0 <= i < |items| ==> items[i].1 >= 0
    requires SumCounts(items) <= total
    ensures SumPercents(WithPct(items, total)) <= 100
  {
    PercentsAtMostShareOfSum(items, total);
    ScaledLe(SumPercents(WithPct(items, total)), 100, total);
  }

  /** How many rows are named `x`'s value. */
  function Hits(x: Option<string>, rows: seq<Row>): nat
  {
    if rows == [] then 0
    else Hits(x, rows[..|rows| - 1]) + (if x == Some(rows[|rows| - 1].0) then 1 else 0)
  }

  /** The occurrences in `vals` of every row's name, added up. */
  function NamedOccurrences(vals: seq<Option<string>>, rows: seq<Row>): nat
  {
    if rows == [] then 0
    else NamedOccurrences(vals, rows[..|rows| - 1]) + Occurrences(vals, rows[|rows| - 1].0)
  }

  lemma {:induction false} NoHits(x: Option<string>, rows: seq<Row>)
    requires forall i :: 0 <= i < |rows| ==> x != Some(rows[i].0)
    ensures Hits(x, rows) == 0
  {
    if rows != [] {
      NoHits(x, rows[..|rows| - 1]);
    }
  }

  /** With distinct names, a value is the name of at most one row. */
  lemma {:induction false} HitsAtMostOne(x: Option<string>, rows: seq<Row>)
    requires DistinctNames(rows)
    ensures Hits(x, rows) <= 1
  {
    if rows != [] {
      var init := rows[..|rows| - 1];
      if x == Some(rows[|rows| - 1].0) {
        NoHits(x, init);
      } else {
        HitsAtMostOne(x, init);
      }
    }
  }

  lemma {:induction false} NamedOccurrencesOfNothing(rows: seq<Row>)
    ensures NamedOccurrences([], rows) == 0
  {
    if rows != [] {
      NamedOccurrencesOfNothing(rows[..|rows| - 1]);
    }
  }

  /** One more click adds one occurrence for every row it names. */
  lemma {:induction false} NamedOccurrencesStep(vals: seq<Option<string>>, x: Option<string>, rows: seq<Row>)
    ensures NamedOccurrences(vals + [x], rows) == NamedOccurrences(vals, rows) + Hits(x, rows)
  {
    if rows != [] {
      NamedOccurrencesStep(vals, x, rows[..|rows| - 1]);
      assert (vals + [x])[..|vals|] == vals;
    }
  }

  /** Occurrences of distinct values never add up to more than the column's length. */
  lemma {:induction false} NamedOccurrencesBound(vals: seq<Option<string>>, rows: seq<Row>)
    requires DistinctNames(rows)
    ensures NamedOccurrences(vals, rows) <= |vals|
  {
    if vals == [] {
      NamedOccurrencesOfNothing(rows);
    } else {
      var init := vals[..|vals| - 1];
      NamedOccurrencesBound(init, rows);
      assert vals == init + [vals[|vals| - 1]];
      NamedOccurrencesStep(init, vals[|vals| - 1], rows);
      HitsAtMostOne(vals[|vals| - 1], rows);
    }
  }

  lemma {:induction false} SumCountsIsNamedOccurrences(vals: seq<Option<string>>, rows: seq<Row>)
    requires forall i :: 0 <= i < |rows| ==> rows[i].1 == Occurrences(vals, rows[i].0)
    ensures SumCounts(rows) == NamedOccurrences(vals, rows)
  {
    if rows != [] {
      SumCountsIsNamedOccurrences(vals, rows[..|rows| - 1]);
    }
  }

  /**
   * One breakdown of the analytics page: `with_pct(count_field(column), total)`.
   * `total` is the link's click count, and the column holds at most that many
   * clicks (the newest 500), so every share is between 0 and 100 and the
   * shares add up to at most 100.
   */
  method Breakdown(vals: seq<Option<string>>, total: int) returns (rows: seq<PctRow>)
    ensures |rows| <= TopRows
    ensures forall i :: 0 <= i < |rows| ==>
      rows[i].0 != "" && rows[i].1 == Occurrences(vals, rows[i].0) > 0 && rows[i].2 == Percent(rows[i].1, total)
    ensures forall i, j :: 0 <= i < j < |rows| ==> rows[i].0 != rows[j].0 && rows[i].1 >= rows[j].1
    ensures |vals| <= total ==> (forall i :: 0 <= i < |rows| ==> 0 <= rows[i].2 <= 100) && SumPercents(rows) <= 100
  {
    var top := CountField(vals);
    rows := WithPct(top, total);
    if |vals| <= total {
      forall i | 0 <= i < |rows| ensures 0 <= rows[i].2 <= 100 {
        PercentBounds(top[i].1, total);
      }
      SumCountsIsNamedOccurrences(vals, top);
      NamedOccurrencesBound(vals, top);
      if total > 0 {
        PercentsSumAtMost100(top, total);
      }
    }
  }
}
