/**
 * The two request handlers of src/app/api/route.ts. Which branch a request
 * takes is a pure function of the request (and, for the token check, of the
 * abstract token verifier); the handlers then run that branch against the
 * table. Signature recovery and the JSON web token functions are parameters.
 */
module Api {
  import opened Wrappers
  import opened PetModel
  import opened Strings
  import opened Rows
  import opened Store
  import opened Lists

  // ---------------------------------------------------------------- GET

  /** The query string as the handler reads it: `id` already passed through
      `parseInt` (None for NaN) and the raw `status` parameter. */
  datatype Query = Query(id: Option<int>, status: Option<string>)

  datatype GetBranch = ById(id: int) | ByStatus(status: string) | AllRows

  /** A truthy id selects one row; otherwise a non-empty status selects a
      filtered list; otherwise every row is listed. */
  function SelectGet(q: Query): (b: GetBranch)
    ensures b.ById? <==> q.id.Some? && q.id.value != 0
    ensures b.ById? ==> b.id == q.id.value
    ensures b.ByStatus? <==> !b.ById? && q.status.Some? && q.status.value != ""
    ensures b.ByStatus? ==> b.status == q.status.value
  {
    if q.id.Some? && q.id.value != 0 then ById(q.id.value)
    else if q.status.Some? && q.status.value != "" then ByStatus(q.status.value)
    else AllRows
  }

  /** A 200 reply with one row or a list; `GetUnhandled` is the exception the
      single-row fetch throws when no row has the id, which the handler does
      not catch. */
  datatype GetOutcome = OneRecord(pet: Pet) | Records(pets: seq<Pet>) | GetUnhandled

  function Get(table: PetTable, q: Query): (r: GetOutcome)
    reads table
    requires table.Valid()
    ensures SelectGet(q).ById? ==>
      var id := SelectGet(q).id;
      (id in table.rows ==> r == OneRecord(table.rows[id])) && (id !in table.rows ==> r == GetUnhandled)
    ensures SelectGet(q).ByStatus? ==>
      var text := SelectGet(q).status;
      && r.Records? && table.ListsRows(r.pets)
      && (forall i :: 0 <= i < |r.pets| ==> StatusText(r.pets[i].status) == text)
      && (forall k :: k in table.rows && StatusText(table.rows[k].status) == text ==>
            exists i :: 0 <= i < |r.pets| && r.pets[i].id == k)
      && r.pets == table.PetsByStatus(text)
    ensures SelectGet(q).AllRows? ==>
      && r.Records? && table.ListsRows(r.pets)
      && (forall k :: k in table.rows ==> exists i :: 0 <= i < |r.pets| && r.pets[i].id == k)
      && (forall i, j :: 0 <= i < j < |r.pets| ==> table.created[r.pets[i].id] <= table.created[r.pets[j].id])
  {
    match SelectGet(q)
    case ById(id) =>
      var row := table.PetById(id);
      if row.Some? then OneRecord(row.value) else GetUnhandled
    case ByStatus(text) =>
      // the handler filters the selected rows by status once more, which keeps them all
      var selected := table.PetsByStatus(text);
      KeepUnchanged(selected, HasStatusText(text));
      Records(Keep(selected, HasStatusText(text)))
    case AllRows =>
      Records(table.PetsByCreation())
  }

  /** The test of `data.filter((pet) => pet.status === status)`. */
  function HasStatusText(text: string): Pet -> bool
  {
    (p: Pet) => StatusText(p.status) == text
  }

  // ---------------------------------------------------------------- POST

  /** The fields of the JSON body the handler reads. */
  datatype PostBody = PostBody(
    action: string,
    address: Address,
    message: string,
    signature: string,
    petId: int,
    newOwner: Address)

  /** A POST request: the body and the value `headers.get("bearer")` gives,
      if the header is present. */
  datatype PostRequest = PostRequest(body: PostBody, bearer: Option<string>)

  /** The foreign functions the handler calls: signed-message recovery
      (`verifyMessage`, None when it throws, for instance on a malformed
      signature), token issue (`jwt.sign` of the address with a one-hour
      expiry) and token decoding (`jwt.verify`, None when it throws because
      the token is malformed, forged or expired). */
  datatype Crypto = Crypto(
    verifyMessage: (Address, string, string) -> Option<bool>,
    sign: Address -> string,
    verify: string -> Option<Address>)

  datatype Payload =
    | RowPayload(pet: Pet)
    | TokenPayload(message: string, jsonwebtoken: string)
    | MessagePayload(message: string)
    | EmptyPayload

  /** A reply with a status code, or an exception the handler does not catch. */
  datatype PostOutcome = Reply(status: int, payload: Payload) | PostUnhandled

  /** `request.headers.get("bearer")?.split(" ")[1]`: the text between the
      first space and the next one, absent when there is no header or no space. */
  function BearerToken(header: Option<string>): (t: Option<string>)
    ensures t.Some? <==> header.Some? && ' ' in header.value
    ensures t.Some? ==> ' ' !in t.value
    ensures t.Some? ==> exists i :: SecondField(header.value, i, t.value)
  {
    match header
    case None => None
    case Some(h) =>
      match IndexOfChar(h, ' ')
      case None => None
      case Some(i) =>
        var rest := h[i + 1..];
        match IndexOfChar(rest, ' ')
        case None => assert SecondField(h, i, rest); Some(rest)
        case Some(j) => assert SecondField(h, i, rest[..j]); Some(rest[..j])
  }

  /** `t` is the second space-separated field of `h`: `h[i]` is the first
      space, and `t` follows it up to the next space or the end. */
  predicate SecondField(h: string, i: int, t: string)
  {
    && 0 <= i < |h| && h[i] == ' ' && ' ' !in h[..i]
    && i + 1 + |t| <= |h| && h[i + 1..i + 1 + |t|] == t
    && (i + 1 + |t| == |h| || h[i + 1 + |t|] == ' ')
  }

  /** The header the pages send, `Bearer ${jwt}`, yields the token back. */
  lemma BearerRoundTrip(token: string)
    requires ' ' !in token
    ensures BearerToken(Some("Bearer " + token)) == Some(token)
  {
    var h := "Bearer " + token;
    assert h[..6] == "Bearer";
    assert IndexOfChar(h, ' ') == Some(6);
    assert h[7..] == token;
  }

  /** The branch a POST request takes. */
  datatype PostBranch =
    | AuthBranch
    | AdoptBranch
    | UpdateNftBranch
    | TokenRequired
    | TokenUnreadable
    | TokenMismatch
    | UpdateOwnerBranch
    | NoAction

  /** `auth`, `adopt` and `updateNFT` are answered before the token is looked
      at; every other action needs a non-empty token whose decoded address
      equals the body's address ignoring case. */
  function SelectPost(req: PostRequest, crypto: Crypto): (b: PostBranch)
    ensures b == AuthBranch <==> req.body.action == "auth"
    ensures b == AdoptBranch <==> req.body.action == "adopt"
    ensures b == UpdateNftBranch <==> req.body.action == "updateNFT"
    ensures b == TokenRequired <==>
      req.body.action !in {"auth", "adopt", "updateNFT"} && !TokenPresent(req)
    ensures b == TokenUnreadable <==>
      req.body.action !in {"auth", "adopt", "updateNFT"} && TokenPresent(req)
      && crypto.verify(BearerToken(req.bearer).value).None?
    ensures b in {UpdateOwnerBranch, NoAction} <==>
      req.body.action !in {"auth", "adopt", "updateNFT"} && TokenAuthorizes(req, crypto)
    ensures b == UpdateOwnerBranch ==> req.body.action == "updateOwner"
  {
    var action := req.body.action;
    if action == "auth" then AuthBranch
    else if action == "adopt" then AdoptBranch
    else if action == "updateNFT" then UpdateNftBranch
    else
      var token := BearerToken(req.bearer);
      if token.None? || token.value == "" then TokenRequired
      else match crypto.verify(token.value)
        case None => TokenUnreadable
        case Some(decoded) =>
          if !EqualIgnoringCase(decoded, req.body.address) then TokenMismatch
          else if action == "updateOwner" then UpdateOwnerBranch
          else NoAction
  }

  /** The request carries a non-empty bearer token that the verifier reads as
      the body's address, up to case. */
  predicate TokenAuthorizes(req: PostRequest, crypto: Crypto)
  {
    var token := BearerToken(req.bearer);
    && TokenPresent(req)
    && crypto.verify(token.value).Some?
    && EqualIgnoringCase(crypto.verify(token.value).value, req.body.address)
  }

  /** The header yields a non-empty token, the truthy value `if (!token)` lets through. */
  predicate TokenPresent(req: PostRequest)
  {
    BearerToken(req.bearer).Some? && BearerToken(req.bearer).value != ""
  }

  /** The three open actions each take their own branch, whatever the header
      or the token verifier. */
  lemma OpenActionsNeedNoToken(req: PostRequest, crypto: Crypto, header: Option<string>, other: Crypto)
    requires req.body.action in {"auth", "adopt", "updateNFT"}
    ensures SelectPost(req, crypto) == SelectPost(req.(bearer := header), other)
    ensures SelectPost(req, crypto) ==
      if req.body.action == "auth" then AuthBranch
      else if req.body.action == "adopt" then AdoptBranch
      else UpdateNftBranch
  {
  }

  /** Any other action without a usable token is turned away before the
      verifier runs, whatever the verifier would say. */
  lemma MissingTokenRejected(req: PostRequest, crypto: Crypto)
    requires req.body.action !in {"auth", "adopt", "updateNFT"}
    requires req.bearer.None? || BearerToken(req.bearer) == Some("")
    ensures SelectPost(req, crypto) == TokenRequired
  {
  }

  /** The admin page sends `Bearer ` with nothing after it when it holds no
      token; that header is treated as a missing token. */
  lemma EmptyStoredTokenRejected(req: PostRequest, crypto: Crypto)
    requires req.body.action !in {"auth", "adopt", "updateNFT"}
    requires req.bearer == Some("Bearer ")
    ensures SelectPost(req, crypto) == TokenRequired
  {
    BearerRoundTrip("");
    MissingTokenRejected(req, crypto);
  }

  /** A readable token reaches `updateOwner` (or the empty reply) exactly when
      its address matches the body's address up to case. */
  lemma TokenAddressDecides(req: PostRequest, crypto: Crypto, decoded: Address)
    requires req.body.action !in {"auth", "adopt", "updateNFT"}
    requires BearerToken(req.bearer).Some? && BearerToken(req.bearer).value != ""
    requires crypto.verify(BearerToken(req.bearer).value) == Some(decoded)
    ensures SelectPost(req, crypto) == TokenMismatch <==> LowerCase(decoded) != LowerCase(req.body.address)
    ensures SelectPost(req, crypto) != TokenMismatch ==>
      SelectPost(req, crypto) == if req.body.action == "updateOwner" then UpdateOwnerBranch else NoAction
  {
  }

  /** A token whose case differs from the body's address still passes. */
  lemma CaseOnlyDifferencePasses(req: PostRequest, crypto: Crypto)
    requires req.body.action == "updateOwner"
    requires BearerToken(req.bearer).Some? && BearerToken(req.bearer).value != ""
    requires crypto.verify(BearerToken(req.bearer).value) == Some(LowerCase(req.body.address))
    ensures SelectPost(req, crypto) == UpdateOwnerBranch
  {
    LowerCaseIdempotent(req.body.address);
  }

  /** The status code each branch answers with, given whether the table write succeeded. */
  function StatusOf(b: PostBranch, signatureValid: bool, writeOk: bool): (code: int)
    requires b != TokenUnreadable
    ensures code in {200, 400, 401}
    ensures code == 401 <==> b in {TokenRequired, TokenMismatch}
    ensures code == 400 <==>
      ((b == AuthBranch && !signatureValid) || (b in {AdoptBranch, UpdateNftBranch, UpdateOwnerBranch} && !writeOk))
  {
    match b
    case AuthBranch => if signatureValid then 200 else 400
    case AdoptBranch => if writeOk then 200 else 400
    case UpdateNftBranch => if writeOk then 200 else 400
    case UpdateOwnerBranch => if writeOk then 200 else 400
    case TokenRequired => 401
    case TokenMismatch => 401
    case NoAction => 200
  }

  /** The reply for a table write inside its `try`: the written row, or 400
      with `failure`; a write never escapes as an uncaught failure. */
  function WriteReply(w: Result<Pet, UpdateError>, failure: string): (r: PostOutcome)
    ensures r.Reply? && (r.status == 200 <==> w.Success?)
    ensures w.Success? ==> r.payload == RowPayload(w.value)
    ensures w.Failure? ==> r.status == 400 && r.payload == MessagePayload(failure)
  {
    match w
    case Success(row) => Reply(200, RowPayload(row))
    case Failure(_) => Reply(400, MessagePayload(failure))
  }

  /** The result of the table write a write branch makes: the table method's
      row update on the stored row, or a missing-row failure. */
  function WriteOutcome(rows: map<int, Pet>, b: PostBranch, body: PostBody, now: int): Result<Pet, UpdateError>
    requires b in {AdoptBranch, UpdateNftBranch, UpdateOwnerBranch}
  {
    if body.petId !in rows then Failure(RowMissing)
    else if b == AdoptBranch then AdoptRow(rows[body.petId], body.address, now)
    else if b == UpdateNftBranch then Success(MintRow(rows[body.petId]))
    else CommitRow(rows[body.petId], body.newOwner)
  }

  /** The POST handler: run the selected branch against the table. */
  method Post(table: PetTable, req: PostRequest, crypto: Crypto, now: int) returns (r: PostOutcome)
    requires table.Valid()
    modifies table
    ensures table.Valid() && table.created == old(table.created) && table.order == old(table.order)
    ensures old(table.RostersOk()) ==> table.RostersOk()
    ensures var b := SelectPost(req, crypto);
      && (b == AuthBranch ==>
            && table.rows == old(table.rows)
            && r == match crypto.verifyMessage(req.body.address, req.body.message, req.body.signature)
                    case None => PostUnhandled
                    case Some(valid) =>
                      if valid then Reply(200, TokenPayload("Valid signature", crypto.sign(req.body.address)))
                      else Reply(400, MessagePayload("Invalid signature")))
      && (b == AdoptBranch ==>
            var w := WriteOutcome(old(table.rows), b, req.body, now);
            && r == WriteReply(w, "Adopt failed")
            && table.rows == if w.Success? then old(table.rows)[req.body.petId := w.value] else old(table.rows))
      && (b == UpdateNftBranch ==>
            var w := WriteOutcome(old(table.rows), b, req.body, now);
            && r == WriteReply(w, "Update NFT failed")
            && table.rows == if w.Success? then old(table.rows)[req.body.petId := w.value] else old(table.rows))
      && (b == UpdateOwnerBranch ==>
            var w := WriteOutcome(old(table.rows), b, req.body, now);
            && r == WriteReply(w, "Update owner failed")
            && table.rows == if w.Success? then old(table.rows)[req.body.petId := w.value] else old(table.rows))
      && (b == TokenRequired ==> table.rows == old(table.rows) && r == Reply(401, MessagePayload("Token is required")))
      && (b == TokenUnreadable ==> table.rows == old(table.rows) && r == PostUnhandled)
      && (b == TokenMismatch ==> table.rows == old(table.rows) && r == Reply(401, MessagePayload("Invaild token")))
      && (b == NoAction ==> table.rows == old(table.rows) && r == Reply(200, EmptyPayload))
    ensures var b := SelectPost(req, crypto);
      r.Reply? && b != TokenUnreadable ==>
        r.status == StatusOf(b,
          crypto.verifyMessage(req.body.address, req.body.message, req.body.signature) == Some(true),
          b in {AdoptBranch, UpdateNftBranch, UpdateOwnerBranch} && WriteOutcome(old(table.rows), b, req.body, now).Success?)
  {
    var body := req.body;
    match SelectPost(req, crypto)
    case AuthBranch =>
      match crypto.verifyMessage(body.address, body.message, body.signature) {
        case None =>
          r := PostUnhandled;
        case Some(valid) =>
          if valid {
            r := Reply(200, TokenPayload("Valid signature", crypto.sign(body.address)));
          } else {
            r := Reply(400, MessagePayload("Invalid signature"));
          }
      }
    case AdoptBranch =>
      var w := table.Adopt(body.address, body.petId, now);
      r := WriteReply(w, "Adopt failed");
    case UpdateNftBranch =>
      var w := table.UpdateNFT(body.petId);
      r := WriteReply(w, "Update NFT failed");
    case TokenRequired =>
      r := Reply(401, MessagePayload("Token is required"));
    case TokenUnreadable =>
      r := PostUnhandled;
    case TokenMismatch =>
      r := Reply(401, MessagePayload("Invaild token"));
    case UpdateOwnerBranch =>
      var w := table.UpdateOwner(body.petId, body.newOwner);
      r := WriteReply(w, "Update owner failed");
    case NoAction =>
      r := Reply(200, EmptyPayload);
  }
}
