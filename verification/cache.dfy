/**
 * Cache keys and Cloudflare KV URLs (src/cache.rs).
 *
 * Each cache operation is modelled by the request it sends: the URL, and
 * for a write the value. Sending it and reading the reply are not part of
 * this model, and neither is the cipher: the encryption applied to a token
 * is a parameter.
 */
module Cache {
  import opened Wrappers
  import opened Numerals
  import opened Text

  const TOKEN_SUFFIX: string := "token"
  const CALENDAR_SUFFIX: string := "calendar"

  /** `Duration::days(1)` in seconds, as `num_seconds` gives it. */
  const CALENDAR_TTL: int := 24 * 60 * 60

  /** The value of `Cache::separator`: ":" URL-encoded. */
  const SEPARATOR: string := "%3A"

  datatype KvStorage = KvStorage(accountId: string, namespaceId: string, apiKey: string)

  /** What the cache sends to the store: a write of a value, or a read. */
  datatype KvRequest = Put(url: string, value: string) | Get(url: string)

  /** `Cache::to_key`: the parts joined with the separator. */
  function ToKey(parts: seq<string>): (key: string)
    ensures |parts| == 1 ==> key == parts[0]
    ensures |parts| == 2 ==> key == parts[0] + SEPARATOR + parts[1]
  {
    Join(parts, SEPARATOR)
  }

  /** The key under which a user's token is kept. */
  function TokenKey(user: string): (key: string)
    ensures key == user + "%3Atoken"
  {
    ToKey([user, TOKEN_SUFFIX])
  }

  /** The key under which a user's calendar is kept. */
  function CalendarKey(user: string): (key: string)
    ensures key == user + "%3Acalendar"
  {
    ToKey([user, CALENDAR_SUFFIX])
  }

  /** A token key is never a calendar key, whoever the two users are: the two endings differ. */
  lemma KeysNeverCollide(user: string, other: string)
    ensures TokenKey(user) != CalendarKey(other)
  {
    var t := TokenKey(user);
    var c := CalendarKey(other);
    assert t[|t| - 1] == 'n';
    assert c[|c| - 1] == 'r';
  }

  /** A key names its user: when the user has no '%', the key's text up to the first '%' is the user. */
  lemma KeyNamesUser(user: string, suffix: string)
    requires '%' !in user
    ensures Split(ToKey([user, suffix]), '%')[0] == user
  {
    assert ToKey([user, suffix]) == user + ['%'] + ("3A" + suffix);
    SplitAtSeparator(user, "3A" + suffix, '%');
  }

  /** Different users (without '%') have different token keys and different calendar keys. */
  lemma KeysIdentifyUsers(user: string, other: string)
    requires '%' !in user && '%' !in other && user != other
    ensures TokenKey(user) != TokenKey(other)
    ensures CalendarKey(user) != CalendarKey(other)
  {
    KeyNamesUser(user, TOKEN_SUFFIX);
    KeyNamesUser(other, TOKEN_SUFFIX);
    KeyNamesUser(user, CALENDAR_SUFFIX);
    KeyNamesUser(other, CALENDAR_SUFFIX);
  }

  /** The text of `url`'s format string, in pieces: before the account id, before the namespace id, before the key. */
  const ACCOUNTS: string := "https://" + "api.cloudflare.com" + "/client/v4/accounts/"
  const NAMESPACES: string := "/storage/kv/namespaces/"
  const VALUES: string := "/values/"

  /** The value's address in the namespace, without a query string. */
  function BaseUrl(storage: KvStorage, key: string): string {
    ACCOUNTS + storage.accountId + NAMESPACES + storage.namespaceId + VALUES + key
  }

  /** No piece of the format string holds a '?'. */
  lemma FormatHasNoQuery()
    ensures NoQuery(ACCOUNTS) && NoQuery(NAMESPACES) && NoQuery(VALUES)
  {
    assert '?' !in "https://";
    assert '?' !in "api.cloudflare.com";
    assert '?' !in "/client/v4/accounts/";
  }

  /**
   * `KVStorage::url`: the value's address, followed by the expiration as a
   * query when a time to live (in seconds) is given.
   */
  function Url(storage: KvStorage, key: string, ttl: Option<int>): (url: string)
    ensures BaseUrl(storage, key) <= url
    ensures ttl.None? <==> |url| == |BaseUrl(storage, key)|
    ensures ttl.Some? ==> url[|BaseUrl(storage, key)|..] == "?expiration_ttl=" + IntToString(ttl.value)
  {
    var base := BaseUrl(storage, key);
    match ttl
    case Some(seconds) => base + "?expiration_ttl=" + IntToString(seconds)
    case None => base
  }

  /** Text without '?': an account id, a namespace id or a key that needs no escaping in a query position. */
  predicate NoQuery(s: string) {
    '?' !in s
  }

  /**
   * Reading a URL back: the part before '?' is the address and the time to
   * live follows "expiration_ttl="; a URL without a time to live has no query.
   */
  lemma {:induction false} UrlQuery(storage: KvStorage, key: string, ttl: Option<int>)
    requires NoQuery(storage.accountId) && NoQuery(storage.namespaceId) && NoQuery(key)
    ensures ttl.None? ==> Split(Url(storage, key, ttl), '?') == [BaseUrl(storage, key)]
    ensures ttl.Some? ==>
      Split(Url(storage, key, ttl), '?') == [BaseUrl(storage, key), "expiration_ttl=" + IntToString(ttl.value)]
  {
    var base := BaseUrl(storage, key);
    FormatHasNoQuery();
    assert '?' !in base;
    match ttl
    case None =>
      SplitWithoutSeparator(base, '?');
    case Some(seconds) =>
      var query := "expiration_ttl=" + IntToString(seconds);
      assert '?' !in query by {
        assert forall i :: 0 <= i < |query| ==> query[i] != '?';
      }
      assert Url(storage, key, ttl) == base + ['?'] + query;
      SplitAtSeparator(base, query, '?');
      SplitWithoutSeparator(query, '?');
  }

  /** The time to live in the query reads back as the number of seconds it was built from. */
  lemma TtlReadsBack(storage: KvStorage, key: string, seconds: nat)
    requires NoQuery(storage.accountId) && NoQuery(storage.namespaceId) && NoQuery(key)
    requires seconds <= U64_MAX
    ensures |Split(Url(storage, key, Some(seconds)), '?')| == 2
    ensures |Split(Split(Url(storage, key, Some(seconds)), '?')[1], '=')| == 2
    ensures ParseU64(Split(Split(Url(storage, key, Some(seconds)), '?')[1], '=')[1]) == Some(seconds)
  {
    UrlQuery(storage, key, Some(seconds));
    var digits := Decimal(seconds);
    assert '=' !in digits by {
      assert forall i :: 0 <= i < |digits| ==> IsDigit(digits[i]);
    }
    assert "expiration_ttl=" + digits == "expiration_ttl" + ['='] + digits;
    SplitAtSeparator("expiration_ttl", digits, '=');
    SplitWithoutSeparator(digits, '=');
    ParseDecimal(seconds);
  }

  /** `save_token`: the encrypted token, written under the user's token key, with no time to live. */
  function SaveToken(storage: KvStorage, user: string, token: string, encrypt: string -> string): (request: KvRequest)
    ensures request.Put? && request.value == encrypt(token)
    ensures request.url == Url(storage, TokenKey(user), None)
  {
    Put(Url(storage, ToKey([user, TOKEN_SUFFIX]), None), encrypt(token))
  }

  /** `token`: a read of the user's token key (its value is then decrypted). */
  function Token(storage: KvStorage, user: string): (request: KvRequest)
    ensures request.Get? && request.url == Url(storage, TokenKey(user), None)
  {
    Get(Url(storage, ToKey([user, TOKEN_SUFFIX]), None))
  }

  /** `save_calendar`: the calendar, written under the user's calendar key, expiring after one day. */
  function SaveCalendar(storage: KvStorage, user: string, calendar: string): (request: KvRequest)
    ensures request.Put? && request.value == calendar
    ensures request.url == Url(storage, CalendarKey(user), Some(CALENDAR_TTL))
  {
    Put(Url(storage, ToKey([user, CALENDAR_SUFFIX]), Some(CALENDAR_TTL)), calendar)
  }

  /** `calendar`: a read of the user's calendar key. */
  function Calendar(storage: KvStorage, user: string): (request: KvRequest)
    ensures request.Get? && request.url == Url(storage, CalendarKey(user), None)
  {
    Get(Url(storage, ToKey([user, CALENDAR_SUFFIX]), None))
  }

  /** A token is read from exactly the URL it was written to, and that URL has no query: tokens never expire. */
  lemma TokenReadWhereSaved(storage: KvStorage, user: string, token: string, encrypt: string -> string)
    requires NoQuery(storage.accountId) && NoQuery(storage.namespaceId) && NoQuery(user)
    ensures SaveToken(storage, user, token, encrypt).url == Token(storage, user).url
    ensures |Split(SaveToken(storage, user, token, encrypt).url, '?')| == 1
  {
    assert NoQuery(TokenKey(user)) by {
      var key := TokenKey(user);
      assert forall i :: 0 <= i < |key| ==> key[i] != '?';
    }
    UrlQuery(storage, TokenKey(user), None);
  }

  lemma DayInDecimal()
    ensures IntToString(CALENDAR_TTL) == "86400"
  {
    assert Decimal(8) == "8";
    assert Decimal(86) == "86";
    assert Decimal(864) == "864";
    assert Decimal(8640) == "8640";
  }

  /** A calendar is written to the URL it is read from, followed by a one-day expiration. */
  lemma CalendarReadWhereSaved(storage: KvStorage, user: string, calendar: string)
    ensures SaveCalendar(storage, user, calendar).url == Calendar(storage, user).url + "?expiration_ttl=86400"
  {
    DayInDecimal();
  }
}
