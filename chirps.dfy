/**
 * The chirp rules of handlers/chirps.go: the profanity filter `cleanBody`, the
 * checks `HandlePostChirp` makes before it creates a chirp, the filter and sort
 * of `HandleGetChirps`, and the check ladder of `HandleDeleteChirp`.
 *
 * The chirp table of the store is an abstract `map<int, Chirp>`; the results of
 * `auth.GetBearerToken`, JSON decoding and `chi.URLParam` + `strconv.Atoi` are
 * `Option` inputs, and `auth.ValidateJWT` and `strconv.Atoi` on the token's
 * subject are function parameters.
 */
module Chirps {
  import opened Wrappers
  import opened Http
  import opened Text

  datatype Chirp = Chirp(id: int, body: string, authorId: int)

  /** A handler's answer: the status code and the chirp table afterwards. */
  datatype Reply = Reply(status: int, chirps: map<int, Chirp>)

  // ---------------------------------------------------------------------------
  // cleanBody

  /** The keys of `wordsToReplace`. */
  const WordsToReplace: set<string> := {"kerfuffle", "sharbert", "fornax"}

  const Mask: string := "****"

  /** `_, found := wordsToReplace[strings.ToLower(word)]` */
  predicate IsProfane(word: string) {
    ToLower(word) in WordsToReplace
  }

  function Censor(word: string): string {
    if IsProfane(word) then Mask else word
  }

  function CensorAll(words: seq<string>): seq<string> {
    seq(|words|, i requires 0 <= i < |words| => Censor(words[i]))
  }

  /** What `cleanBody` returns. */
  function Clean(body: string): string {
    Join(CensorAll(Fields(body)))
  }

  /** `cleanBody`: split into fields, overwrite the profane ones, join with single spaces. */
  method CleanBody(body: string) returns (cleaned: string)
    ensures cleaned == Clean(body)
  {
    var words := Fields(body);
    var i := 0;
    while i < |words|
      invariant 0 <= i <= |words| == |Fields(body)|
      invariant forall k :: 0 <= k < i ==> words[k] == Censor(Fields(body)[k])
      invariant forall k :: i <= k < |words| ==> words[k] == Fields(body)[k]
    {
      if ToLower(words[i]) in WordsToReplace {
        words := words[i := Mask];
      }
      i := i + 1;
    }
    assert words == CensorAll(Fields(body));
    cleaned := Join(words);
  }

  lemma MaskIsCleanWord()
    ensures IsWord(Mask) && !IsProfane(Mask)
  {
    assert ToLower(Mask) == Mask;
  }

  /** A word is replaced exactly when its lower-case form is on the list. */
  lemma CensorChangesExactlyProfane(word: string)
    ensures Censor(word) != word <==> IsProfane(word)
    ensures IsProfane(word) ==> Censor(word) == Mask
  {
    MaskIsCleanWord();
  }

  /** Only whole words are matched, in any letter case: punctuation keeps a word. */
  lemma CensorExamples()
    ensures Censor("Sharbert!") == "Sharbert!"
    ensures Censor("SHARBERT") == Mask
    ensures Censor("Kerfuffle") == Mask
    ensures Censor("fornax") == Mask
    ensures Censor("fornaxes") == "fornaxes"
    ensures Censor("\U{212A}erfuffle") == Mask  // KELVIN SIGN lower-cases to 'k'
  {
    assert ToLower("\U{212A}erfuffle") == "kerfuffle";
    assert ToLower("Sharbert!")[8] == '!';
    assert ToLower("SHARBERT") == "sharbert";
    assert ToLower("Kerfuffle") == "kerfuffle";
    assert ToLower("fornax") == "fornax";
    assert |ToLower("fornaxes")| == 8 && ToLower("fornaxes")[0] == 'f';
  }

  lemma CensorAllKeepsWords(words: seq<string>)
    requires AllWords(words)
    ensures AllWords(CensorAll(words))
  {
    MaskIsCleanWord();
  }

  /** The fields of the cleaned body are the censored fields of the body, one for one. */
  lemma CleanFields(body: string)
    ensures Fields(Clean(body)) == CensorAll(Fields(body))
    ensures |Fields(Clean(body))| == |Fields(body)|
    ensures forall i :: 0 <= i < |Fields(body)| ==> Fields(Clean(body))[i] == Censor(Fields(body)[i])
  {
    CensorAllKeepsWords(Fields(body));
    FieldsOfJoin(CensorAll(Fields(body)));
  }

  /** The cleaned body is in canonical form: its words joined by single spaces. */
  lemma CleanIsCanonical(body: string)
    ensures Join(Fields(Clean(body))) == Clean(body)
  {
    CleanFields(body);
  }

  lemma CleanIdempotent(body: string)
    ensures Clean(Clean(body)) == Clean(body)
  {
    var once := CensorAll(Fields(body));
    CleanFields(body);
    MaskIsCleanWord();
    assert CensorAll(once) == once;
  }

  /**
   * However the words of a body are separated, by runs of any white space and
   * with any white space at either end, the cleaned body is the censored words
   * joined by single spaces.
   */
  lemma CleanCollapsesSpace(ws: seq<string>, seps: seq<string>)
    requires AllWords(ws) && Separates(ws, seps)
    ensures Clean(Spaced(ws, seps)) == Join(CensorAll(ws))
  {
    FieldsOfSpaced(ws, seps);
  }

  /** The body of `CleanExample`: three words separated by a space, two tabs, two spaces and a space. */
  lemma ExampleIsSpaced()
    ensures AllWords(["a", "Kerfuffle", "b"])
    ensures Separates(["a", "Kerfuffle", "b"], [" ", "\t\t", "  ", " "])
    ensures Spaced(["a", "Kerfuffle", "b"], [" ", "\t\t", "  ", " "]) == " a\t\tKerfuffle  b "
  {
  }

  /** The words of `CleanExample`, censored and joined. */
  lemma ExampleCensored()
    ensures Join(CensorAll(["a", "Kerfuffle", "b"])) == "a **** b"
  {
    CensorExamples();
    assert ToLower("a") == "a" && ToLower("b") == "b";
    var masked := CensorAll(["a", "Kerfuffle", "b"]);
    assert masked == ["a", Mask, "b"];
    assert masked[1..] == [Mask, "b"] && masked[1..][1..] == ["b"];
    assert Join(["b"]) == "b";
    assert Join([Mask, "b"]) == Mask + " " + "b";
    assert Join(masked) == "a" + " " + (Mask + " " + "b");
  }

  /** Tabs, double spaces and the spaces at both ends collapse; the profane word is masked. */
  lemma CleanExample()
    ensures Clean(" a\t\tKerfuffle  b ") == "a **** b"
  {
    ExampleIsSpaced();
    CleanCollapsesSpace(["a", "Kerfuffle", "b"], [" ", "\t\t", "  ", " "]);
    ExampleCensored();
  }

  // ---------------------------------------------------------------------------
  // HandlePostChirp

  /** The longest accepted chirp body, in bytes. */
  const MaxChirpLength := 140

  /** The number of bytes of the UTF-8 encoding of one rune. */
  function RuneLength(c: char): nat {
    var n := c as int;
    if n < 0x80 then 1 else if n < 0x800 then 2 else if n < 0x10000 then 3 else 4
  }

  /** `len(s)` of a Go string: its length in UTF-8 bytes. */
  function Utf8Length(s: string): nat {
    if s == [] then 0 else RuneLength(s[0]) + Utf8Length(s[1..])
  }

  lemma {:induction false} Utf8LengthBounds(s: string)
    ensures |s| <= Utf8Length(s) <= 4 * |s|
  {
    if s != [] {
      Utf8LengthBounds(s[1..]);
    }
  }

  /** Lines 63-71: the body must be non-empty and at most 140 bytes long. */
  predicate BodyAccepted(body: string) {
    body != "" && Utf8Length(body) <= MaxChirpLength
  }

  /** Every non-empty body of at most 35 runes fits; no body of more than 140 runes does. */
  lemma BodyLimitInRunes(body: string)
    ensures 0 < |body| <= MaxChirpLength / 4 ==> BodyAccepted(body)
    ensures |body| > MaxChirpLength ==> !BodyAccepted(body)
  {
    Utf8LengthBounds(body);
  }

  /** Where the bearer-token steps of a handler end. */
  datatype Caller = NoToken | InvalidToken | BadSubject | Caller(userId: int)

  /**
   * `auth.GetBearerToken` (its result `bearer`), `auth.ValidateJWT` (the
   * subject), then `strconv.Atoi` on the subject.
   */
  function Authenticate(bearer: Option<string>, validateJwt: string -> Option<string>,
                        atoi: string -> Option<int>): Caller
  {
    match bearer
    case None => NoToken
    case Some(token) =>
      match validateJwt(token)
      case None => InvalidToken
      case Some(subject) =>
        match atoi(subject)
        case None => BadSubject
        case Some(userId) => Caller(userId)
  }

  /** The status of a failed authentication. */
  function AuthFailureStatus(caller: Caller): int
    requires !caller.Caller?
  {
    if caller.BadSubject? then StatusBadRequest else StatusUnauthorized
  }

  /**
   * `HandlePostChirp`. `decoded` is the decoded `body` parameter (None when the
   * JSON does not decode); `newId` is the ID `CreateChirp` gives the new chirp.
   */
  function PostChirp(chirps: map<int, Chirp>, bearer: Option<string>,
                     validateJwt: string -> Option<string>, atoi: string -> Option<int>,
                     decoded: Option<string>, newId: int): (r: Reply)
    ensures r.status == StatusCreated <==>
      Authenticate(bearer, validateJwt, atoi).Caller? && decoded.Some? && BodyAccepted(decoded.value)
    ensures r.status == StatusCreated ==>
      r.chirps == chirps[newId := Chirp(newId, Clean(decoded.value), Authenticate(bearer, validateJwt, atoi).userId)]
    ensures r.status == StatusCreated && newId !in chirps ==>
      r.chirps.Keys == chirps.Keys + {newId} && |r.chirps| == |chirps| + 1
    ensures r.status != StatusCreated ==> r.chirps == chirps
  {
    var caller := Authenticate(bearer, validateJwt, atoi);
    if !caller.Caller? then Reply(AuthFailureStatus(caller), chirps)
    else if decoded.None? then Reply(StatusInternalServerError, chirps)
    else if decoded.value == "" then Reply(StatusBadRequest, chirps)
    else if Utf8Length(decoded.value) > MaxChirpLength then Reply(StatusBadRequest, chirps)
    else Reply(StatusCreated, chirps[newId := Chirp(newId, Clean(decoded.value), caller.userId)])
  }

  /** A missing or invalid token is answered with 401 whatever the body is. */
  lemma PostChecksTokenFirst(chirps: map<int, Chirp>, bearer: Option<string>,
                             validateJwt: string -> Option<string>, atoi: string -> Option<int>, newId: int)
    requires bearer.None? || validateJwt(bearer.value).None?
    ensures forall decoded :: PostChirp(chirps, bearer, validateJwt, atoi, decoded, newId) == Reply(StatusUnauthorized, chirps)
  {
  }

  /** An authenticated request with an empty or over-long body is answered with 400 and creates nothing. */
  lemma PostRejectsBadBody(chirps: map<int, Chirp>, bearer: Option<string>,
                           validateJwt: string -> Option<string>, atoi: string -> Option<int>,
                           body: string, newId: int)
    requires Authenticate(bearer, validateJwt, atoi).Caller?
    requires !BodyAccepted(body)
    ensures PostChirp(chirps, bearer, validateJwt, atoi, Some(body), newId) == Reply(StatusBadRequest, chirps)
  {
  }

  // ---------------------------------------------------------------------------
  // HandleGetChirps

  /** The `author_id` query parameter: empty, a number, or not a number. */
  datatype AuthorQuery = NoAuthor | AuthorId(n: int) | InvalidAuthor

  /** A chirp stays in the list: no author was asked for (`-1`), or it is the author's. */
  predicate Matches(c: Chirp, authorId: int) {
    authorId == -1 || c.authorId == authorId
  }

  /** The chirps of `db` that match, in the order of `db`. */
  function Keep(db: seq<Chirp>, authorId: int): seq<Chirp> {
    if db == [] then []
    else
      var last := db[|db| - 1];
      Keep(db[..|db| - 1], authorId) + (if Matches(last, authorId) then [last] else [])
  }

  /** Each chirp occurs in the filtered list as often as in `db` if it matches, and not at all otherwise. */
  lemma {:induction false} KeepCounts(db: seq<Chirp>, authorId: int, c: Chirp)
    ensures multiset(Keep(db, authorId))[c] == if Matches(c, authorId) then multiset(db)[c] else 0
  {
    if db != [] {
      var front, last := db[..|db| - 1], db[|db| - 1];
      assert db == front + [last];
      KeepCounts(front, authorId, c);
    }
  }

  /** A list with the multiset of `Keep` holds exactly the matching chirps of `db`. */
  lemma KeptExactly(db: seq<Chirp>, authorId: int, listed: seq<Chirp>)
    requires multiset(listed) == multiset(Keep(db, authorId))
    ensures forall c :: c in listed <==> c in db && Matches(c, authorId)
  {
    forall c ensures c in listed <==> c in db && Matches(c, authorId) {
      KeepCounts(db, authorId, c);
      assert c in listed <==> multiset(listed)[c] > 0;
      assert c in db <==> multiset(db)[c] > 0;
    }
  }

  /** The filtering loop of lines 105-116. */
  method FilterByAuthor(db: seq<Chirp>, authorId: int) returns (chirps: seq<Chirp>)
    ensures chirps == Keep(db, authorId)
  {
    chirps := [];
    var i := 0;
    while i < |db|
      invariant 0 <= i <= |db|
      invariant chirps == Keep(db[..i], authorId)
    {
      assert db[..i + 1][..i] == db[..i];
      if authorId != -1 && db[i].authorId != authorId {
        i := i + 1;
        continue;
      }
      chirps := chirps + [db[i]];
      i := i + 1;
    }
    assert db[..i] == db;
  }

  /** The order `sort.Slice` puts two neighbours in: by ID, descending when `desc`. */
  predicate InOrder(x: Chirp, y: Chirp, desc: bool) {
    if desc then x.id >= y.id else x.id <= y.id
  }

  predicate SortedBy(s: seq<Chirp>, desc: bool) {
    forall i, j :: 0 <= i < j < |s| ==> InOrder(s[i], s[j], desc)
  }

  /** Exchanges `a[j - 1]` and `a[j]`. */
  method SwapWithPrevious(a: array<Chirp>, j: int)
    requires 0 < j < a.Length
    modifies a
    ensures a[j - 1] == old(a[j]) && a[j] == old(a[j - 1])
    ensures forall k :: 0 <= k < a.Length && k != j - 1 && k != j ==> a[k] == old(a[k])
    ensures multiset(a[..]) == multiset(old(a[..]))
  {
    a[j - 1], a[j] := a[j], a[j - 1];
  }

  /** Moves `a[i]` left into the sorted `a[..i]`, so that `a[..i + 1]` is sorted. */
  method InsertIntoSorted(a: array<Chirp>, i: int, desc: bool)
    requires 0 <= i < a.Length
    requires forall k, l :: 0 <= k < l < i ==> InOrder(a[k], a[l], desc)
    modifies a
    ensures forall k, l :: 0 <= k < l <= i ==> InOrder(a[k], a[l], desc)
    ensures multiset(a[..]) == multiset(old(a[..]))
  {
    var j := i;
    while j > 0 && !InOrder(a[j - 1], a[j], desc)
      invariant 0 <= j <= i
      invariant forall k, l :: 0 <= k < l <= i && k != j && l != j ==> InOrder(a[k], a[l], desc)
      invariant forall l :: j < l <= i ==> InOrder(a[j], a[l], desc)
      invariant multiset(a[..]) == multiset(old(a[..]))
    {
      SwapWithPrevious(a, j);
      j := j - 1;
    }
  }

  /** `sort.Slice` with the less function of lines 120-126, as an insertion sort. */
  method SortChirps(a: array<Chirp>, desc: bool)
    modifies a
    ensures SortedBy(a[..], desc)
    ensures multiset(a[..]) == multiset(old(a[..]))
  {
    var i := 0;
    while i < a.Length
      invariant 0 <= i <= a.Length
      invariant forall k, l :: 0 <= k < l < i ==> InOrder(a[k], a[l], desc)
      invariant multiset(a[..]) == multiset(old(a[..]))
    {
      InsertIntoSorted(a, i, desc);
      i := i + 1;
    }
  }

  /** The author ID the filter uses: the sentinel -1 when none was given (line 95). */
  function AuthorFilter(author: AuthorQuery): int
    requires !author.InvalidAuthor?
  {
    if author.AuthorId? then author.n else -1
  }

  /**
   * `HandleGetChirps` after `GetChirps` returned `db`: parse `author_id`, filter, sort.
   * `sort` is the `sort` query parameter.
   */
  method ListChirps(db: seq<Chirp>, author: AuthorQuery, sort: string) returns (status: int, chirps: seq<Chirp>)
    ensures status == StatusBadRequest <==> author.InvalidAuthor?
    ensures status == StatusBadRequest || status == StatusOK
    ensures status == StatusBadRequest ==> chirps == []
    ensures status == StatusOK ==>
      && multiset(chirps) == multiset(Keep(db, AuthorFilter(author)))
      && SortedBy(chirps, sort == "desc")
  {
    var authorId := -1;
    match author {
      case InvalidAuthor =>
        return StatusBadRequest, [];
      case AuthorId(n) =>
        authorId := n;
      case NoAuthor =>
    }
    var filtered := FilterByAuthor(db, authorId);
    var a := new Chirp[|filtered|](i requires 0 <= i < |filtered| => filtered[i]);
    assert a[..] == filtered;
    SortChirps(a, sort == "desc");
    return StatusOK, a[..];
  }

  /** No two chirps of the list share an ID, as when they come from the chirp table. */
  predicate DistinctIds(s: seq<Chirp>) {
    forall i, j :: 0 <= i < j < |s| ==> s[i].id != s[j].id
  }

  /** With distinct IDs the list is strictly ordered. */
  lemma SortedIsStrict(s: seq<Chirp>, desc: bool)
    requires SortedBy(s, desc) && DistinctIds(s)
    ensures forall i, j :: 0 <= i < j < |s| ==> if desc then s[i].id > s[j].id else s[i].id < s[j].id
  {
  }

  /** Chirps of the list that share an ID are the same chirp, as when they come from the chirp table. */
  predicate IdsIdentify(s: seq<Chirp>) {
    forall x, y :: x in s && y in s && x.id == y.id ==> x == y
  }

  /** Two sorted lists of the same chirps, where an ID identifies a chirp, start with the same chirp. */
  lemma SortedHeadsAgree(s: seq<Chirp>, t: seq<Chirp>, desc: bool)
    requires SortedBy(s, desc) && SortedBy(t, desc)
    requires multiset(s) == multiset(t)
    requires IdsIdentify(s)
    requires s != []
    ensures t != [] && s[0] == t[0]
  {
    assert t[0] in multiset(s) && s[0] in multiset(t) by {
      assert s[0] in multiset(s);
      assert |multiset(t)| == |multiset(s)| > 0;
    }
    var i :| 0 <= i < |s| && s[i] == t[0];
    var j :| 0 <= j < |t| && t[j] == s[0];
    assert i != 0 ==> InOrder(s[0], s[i], desc);
    assert j != 0 ==> InOrder(t[0], t[j], desc);
    assert s[0].id == t[0].id && t[0] in s;
  }

  /** Removing the same first chirp from lists of the same chirps leaves lists of the same chirps. */
  lemma TailsAgree(s: seq<Chirp>, t: seq<Chirp>)
    requires s != [] && t != [] && s[0] == t[0]
    requires multiset(s) == multiset(t)
    ensures multiset(s[1..]) == multiset(t[1..])
  {
    assert s == [s[0]] + s[1..] && t == [t[0]] + t[1..];
    assert multiset(s) == multiset{s[0]} + multiset(s[1..]);
    assert multiset(t) == multiset{s[0]} + multiset(t[1..]);
    assert multiset(s[1..]) == multiset(s) - multiset{s[0]};
    assert multiset(t[1..]) == multiset(t) - multiset{s[0]};
  }

  /** When an ID identifies a chirp, two sorted lists of the same chirps are equal. */
  lemma {:induction false} SortedListIsUnique(s: seq<Chirp>, t: seq<Chirp>, desc: bool)
    requires SortedBy(s, desc) && SortedBy(t, desc)
    requires multiset(s) == multiset(t)
    requires IdsIdentify(s)
    ensures s == t
  {
    if s == [] {
      assert |t| == |multiset(t)| == 0;
    } else {
      SortedHeadsAgree(s, t, desc);
      TailsAgree(s, t);
      assert forall x :: x in s[1..] ==> x in s;
      assert SortedBy(s[1..], desc) && SortedBy(t[1..], desc) && IdsIdentify(s[1..]);
      SortedListIsUnique(s[1..], t[1..], desc);
      assert s == [s[0]] + s[1..] && t == [t[0]] + t[1..];
    }
  }

  /**
   * Filtering and sorting two orders of the same chirps gives the same list:
   * the answer does not depend on the order in which `GetChirps` returned them.
   */
  lemma ListingIsOrderIndependent(db1: seq<Chirp>, db2: seq<Chirp>, authorId: int, desc: bool,
                                  c1: seq<Chirp>, c2: seq<Chirp>)
    requires multiset(db1) == multiset(db2)
    requires IdsIdentify(db1)
    requires multiset(c1) == multiset(Keep(db1, authorId)) && SortedBy(c1, desc)
    requires multiset(c2) == multiset(Keep(db2, authorId)) && SortedBy(c2, desc)
    ensures c1 == c2
  {
    forall c ensures multiset(Keep(db1, authorId))[c] == multiset(Keep(db2, authorId))[c] {
      KeepCounts(db1, authorId, c);
      KeepCounts(db2, authorId, c);
    }
    assert multiset(c1) == multiset(c2);
    KeptExactly(db1, authorId, c1);
    assert IdsIdentify(c1);
    SortedListIsUnique(c1, c2, desc);
  }

  /** `HandleGetChirps` on two orders of the same chirps answers the same both times. */
  method ListInEitherOrder(db1: seq<Chirp>, db2: seq<Chirp>, author: AuthorQuery, sort: string)
    returns (status1: int, chirps1: seq<Chirp>, status2: int, chirps2: seq<Chirp>)
    requires multiset(db1) == multiset(db2)
    requires IdsIdentify(db1)
    ensures status1 == status2 && chirps1 == chirps2
  {
    status1, chirps1 := ListChirps(db1, author, sort);
    status2, chirps2 := ListChirps(db2, author, sort);
    if status1 == StatusOK {
      ListingIsOrderIndependent(db1, db2, AuthorFilter(author), sort == "desc", chirps1, chirps2);
    }
  }

  // ---------------------------------------------------------------------------
  // HandleDeleteChirp

  /**
   * `HandleDeleteChirp`. `chirpId` is the parsed `{id}` URL parameter; `GetChirp`
   * is a lookup in `chirps` and `DeleteChirp` removes the key.
   */
  function DeleteChirp(chirps: map<int, Chirp>, chirpId: Option<int>, bearer: Option<string>,
                       validateJwt: string -> Option<string>, atoi: string -> Option<int>): (r: Reply)
    ensures r.status == StatusOK <==>
      && chirpId.Some? && chirpId.value in chirps
      && Authenticate(bearer, validateJwt, atoi).Caller?
      && chirps[chirpId.value].authorId == Authenticate(bearer, validateJwt, atoi).userId
    ensures r.status == StatusOK ==> r.chirps == chirps - {chirpId.value}
    ensures r.status != StatusOK ==> r.chirps == chirps
  {
    if chirpId.None? then Reply(StatusBadRequest, chirps)
    else
      var caller := Authenticate(bearer, validateJwt, atoi);
      if !caller.Caller? then Reply(AuthFailureStatus(caller), chirps)
      else if chirpId.value !in chirps then Reply(StatusNotFound, chirps)
      else if chirps[chirpId.value].authorId != caller.userId then Reply(StatusForbidden, chirps)
      else Reply(StatusOK, chirps - {chirpId.value})
  }

  /** Only the author's delete removes anything, and it removes that one chirp. */
  lemma OnlyAuthorDeletes(chirps: map<int, Chirp>, chirpId: Option<int>, bearer: Option<string>,
                          validateJwt: string -> Option<string>, atoi: string -> Option<int>)
    ensures var r := DeleteChirp(chirps, chirpId, bearer, validateJwt, atoi);
      r.chirps != chirps ==>
        && chirpId.Some? && chirpId.value in chirps
        && Authenticate(bearer, validateJwt, atoi) == Caller(chirps[chirpId.value].authorId)
        && r.chirps == chirps - {chirpId.value}
  {
  }

  /** A chirp that does not exist gives 404, whoever asks; someone else's chirp gives 403 and stays. */
  lemma DeleteCheckOrder(chirps: map<int, Chirp>, id: int, bearer: Option<string>,
                         validateJwt: string -> Option<string>, atoi: string -> Option<int>)
    requires Authenticate(bearer, validateJwt, atoi).Caller?
    ensures id !in chirps ==> DeleteChirp(chirps, Some(id), bearer, validateJwt, atoi) == Reply(StatusNotFound, chirps)
    ensures id in chirps && chirps[id].authorId != Authenticate(bearer, validateJwt, atoi).userId ==>
      DeleteChirp(chirps, Some(id), bearer, validateJwt, atoi) == Reply(StatusForbidden, chirps)
  {
  }

  /** An unparsable ID is answered with 400 before the token is looked at. */
  lemma DeleteParsesIdFirst(chirps: map<int, Chirp>, validateJwt: string -> Option<string>, atoi: string -> Option<int>)
    ensures forall bearer :: DeleteChirp(chirps, None, bearer, validateJwt, atoi) == Reply(StatusBadRequest, chirps)
  {
  }
}
