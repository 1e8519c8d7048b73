/** src/modules/auth/signup-token.ts: the token handed out once a phone number or an
    email has been verified, and the count of uploads made with it. */
module SignupToken {
  import opened Basics
  import opened RedisModel

  const SIGNUP_TOKEN_TTL_SECONDS: nat := 60 * 60
  const SIGNUP_MAX_UPLOADS: nat := 12
  const MAX_TOKEN_LENGTH: nat := 128

  datatype Identity = Whatsapp(phone: string) | Business(email: string)

  /** The object whose JSON text is stored. */
  function Fields(identity: Identity): map<string, JsonField> {
    match identity
    case Whatsapp(phone) => map["entry" := JsonString("whatsapp"), "phone" := JsonString(phone)]
    case Business(email) => map["entry" := JsonString("business"), "email" := JsonString(email)]
  }

  function Digits(n: nat): string {
    (if n < 10 then "" else Digits(n / 10)) + ["0123456789"[n % 10]]
  }

  function Decimal(n: int): string {
    if n < 0 then "-" + Digits(-n) else Digits(n)
  }

  /** The string field `name` of a parsed object. */
  function StringField(fields: map<string, JsonField>, name: string): Option<string> {
    if name in fields && fields[name].JsonString? then Some(fields[name].text) else None
  }

  /** What a stored value stands for: a record, or the bare phone number older tokens
      hold. Text that opens like an object without being one is unknown. */
  function Parsed(stored: Value): Option<Identity> {
    match stored
    case Count(n) => Some(Whatsapp(Decimal(n)))
    case Text(text) => if text == "" || text[0] == '{' then None else Some(Whatsapp(text))
    case JsonObject(fields) =>
      if StringField(fields, "entry") == Some("business") && StringField(fields, "email").Some? then
        Some(Business(fields["email"].text))
      else if StringField(fields, "entry") == Some("whatsapp") && StringField(fields, "phone").Some? then
        Some(Whatsapp(fields["phone"].text))
      else
        None
  }

  predicate WellSized(token: Option<string>) {
    token.Some? && 0 < |token.value| <= MAX_TOKEN_LENGTH
  }

  function TokenRead(db: Db, token: Option<string>): Option<Identity> {
    if !WellSized(token) || db.Get(TokenKey(token.value)).None? then None
    else Parsed(db.Get(TokenKey(token.value)).value)
  }

  function DigitsValue(s: string): nat {
    if s == "" then 0 else 10 * DigitsValue(s[..|s| - 1]) + if '0' <= s[|s| - 1] <= '9' then (s[|s| - 1] - '0') as int else 0
  }

  lemma LastDigit(s: string, d: nat)
    requires d < 10
    ensures DigitsValue(s + ["0123456789"[d]]) == 10 * DigitsValue(s) + d
  {
    assert (s + ["0123456789"[d]])[..|s|] == s;
  }

  lemma {:induction false} DigitsAre(n: nat)
    ensures DigitsValue(Digits(n)) == n
  {
    if n >= 10 {
      DigitsAre(n / 10);
    }
    LastDigit(if n < 10 then "" else Digits(n / 10), n % 10);
  }

  /** Text that does not open like an object is a bare phone number, a WhatsApp sign-up. */
  lemma BarePhone(text: string)
    ensures Parsed(Text(text)) == Some(Whatsapp(text)) <==> text != "" && text[0] != '{'
    ensures Parsed(Text(text)) != None ==> Parsed(Text(text)) == Some(Whatsapp(text))
  {
  }

  /** An object is a business sign-up exactly when it says so and has an email, a WhatsApp
      one exactly when it says so and has a phone number, and anything else is unknown. */
  lemma RecordIs(fields: map<string, JsonField>, text: string)
    ensures Parsed(JsonObject(fields)) == Some(Business(text)) <==>
              "entry" in fields && fields["entry"] == JsonString("business") &&
              "email" in fields && fields["email"] == JsonString(text)
    ensures Parsed(JsonObject(fields)) == Some(Whatsapp(text)) <==>
              "entry" in fields && fields["entry"] == JsonString("whatsapp") &&
              "phone" in fields && fields["phone"] == JsonString(text)
  {
  }

  /** Reading gives back what was written, and the other kind of sign-up for no value
      of the address. */
  lemma RecordRoundTrip(identity: Identity)
    ensures Parsed(JsonObject(Fields(identity))) == Some(identity)
  {
  }

  function Issued(db: Db, token: string, identity: Identity): Db {
    db.SetEx(TokenKey(token), JsonObject(Fields(identity)), SIGNUP_TOKEN_TTL_SECONDS)
  }

  function Consumed(db: Db, token: string): Db {
    db.Del({TokenKey(token), UploadsKey(token)})
  }

  /** A fresh random token, drawn by the caller of the random source. */
  method IssueSignupToken(redis: Redis, identity: Identity, random: string) returns (token: string)
    requires WellSized(Some(random))
    modifies redis
    ensures token == random
    ensures redis.State() == Issued(old(redis.State()), token, identity)
    ensures TokenRead(redis.State(), Some(token)) == Some(identity)
    ensures redis.State().Expiry(TokenKey(token)) == Some(redis.now + 3_600_000)
    ensures forall k :: k != TokenKey(token) ==> SameEntry(redis.State(), old(redis.State()), k)
  {
    token := random;
    redis.SetEx(TokenKey(token), JsonObject(Fields(identity)), SIGNUP_TOKEN_TTL_SECONDS);
  }

  method ReadSignupToken(redis: Redis, token: Option<string>) returns (identity: Option<Identity>)
    ensures identity == TokenRead(redis.State(), token)
    ensures token.None? || token.value == "" || |token.value| > 128 ==> identity == None
    ensures token.Some? && 1 <= |token.value| <= 128 ==>
              identity == match redis.State().Get(TokenKey(token.value))
                          case None => None
                          case Some(stored) => Parsed(stored)
  {
    if token.None? || token.value == "" || |token.value| > MAX_TOKEN_LENGTH {
      return None;
    }
    var stored := redis.Get(TokenKey(token.value));
    if stored.None? {
      return None;
    }
    return Parsed(stored.value);
  }

  predicate UploadAllowed(db: Db, token: Option<string>)
    requires token.Some? ==> db.Countable(UploadsKey(token.value))
  {
    TokenRead(db, token).Some? && db.CountOf(UploadsKey(token.value)) < SIGNUP_MAX_UPLOADS
  }

  method CountSignupUpload(redis: Redis, token: Option<string>) returns (allowed: bool)
    requires token.Some? ==> redis.State().Countable(UploadsKey(token.value))
    modifies redis
    ensures allowed == old(UploadAllowed(redis.State(), token))
    ensures redis.State() == if old(TokenRead(redis.State(), token)).Some? then Counted(old(redis.State()), UploadsKey(token.value), SIGNUP_TOKEN_TTL_SECONDS)
                             else old(redis.State())
    ensures allowed ==> TokenRead(old(redis.State()), token).Some? && old(redis.State()).CountOf(UploadsKey(token.value)) < 12
    ensures forall k :: token == None || k != UploadsKey(token.value) ==> SameEntry(redis.State(), old(redis.State()), k)
    ensures TokenRead(old(redis.State()), token).Some? && !old(redis.State()).Live(UploadsKey(token.value)) ==>
              redis.State().Get(UploadsKey(token.value)) == Some(Count(1)) &&
              redis.State().Expiry(UploadsKey(token.value)) == Some(redis.now + 3_600_000)
  {
    var identity := ReadSignupToken(redis, token);
    if identity.None? {
      return false;
    }
    var used := redis.Incr(UploadsKey(token.value));
    if used == 1 {
      redis.Expire(UploadsKey(token.value), SIGNUP_TOKEN_TTL_SECONDS);
    }
    return used <= SIGNUP_MAX_UPLOADS;
  }

  method ConsumeSignupToken(redis: Redis, token: string)
    modifies redis
    ensures redis.State() == Consumed(old(redis.State()), token)
    ensures TokenKey(token) !in redis.store && UploadsKey(token) !in redis.store
    ensures forall k :: k != TokenKey(token) && k != UploadsKey(token) ==> SameEntry(redis.State(), old(redis.State()), k)
    ensures TokenRead(redis.State(), Some(token)) == None
  {
    redis.Del({TokenKey(token), UploadsKey(token)});
  }
}
