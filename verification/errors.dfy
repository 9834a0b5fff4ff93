/** The error hierarchy of `src/utils/errors.ts`: one constructor per class,
    with the machine-readable code and the formatted message. */
module Errors {
  import opened Wrappers
  import Text

  datatype Error =
      /** `SpecBridgeError` constructed directly with its own message and code. */
    | SpecBridgeError(msg: string, errCode: string)
    | ConfigNotFound(path: string)
    | ConfigParse(detail: string)
    | Authentication(platform: string)
      /** `retryAfter` is stored as given; `None` is `undefined`. */
    | RateLimit(limitedPlatform: string, retryAfter: Option<int>)
    | Adapter(adapterName: string, detail: string)
      /** A plain `Error` (or `TypeError`) that carries no code. */
    | Plain(text: string)
  {
    /** True for the five subclasses of `SpecBridgeError`. */
    predicate IsSubclass() {
      ConfigNotFound? || ConfigParse? || Authentication? || RateLimit? || Adapter?
    }

    /** The `name` property: the constructor's class name. */
    function Name(): string {
      match this
      case SpecBridgeError(_, _) => "SpecBridgeError"
      case ConfigNotFound(_) => "ConfigNotFoundError"
      case ConfigParse(_) => "ConfigParseError"
      case Authentication(_) => "AuthenticationError"
      case RateLimit(_, _) => "RateLimitError"
      case Adapter(_, _) => "AdapterError"
      case Plain(_) => "Error"
    }

    /** The `code` property; a plain `Error` has none. */
    function Code(): Option<string> {
      match this
      case SpecBridgeError(_, c) => Some(c)
      case ConfigNotFound(_) => Some("CONFIG_NOT_FOUND")
      case ConfigParse(_) => Some("CONFIG_PARSE_ERROR")
      case Authentication(_) => Some("AUTH_ERROR")
      case RateLimit(_, _) => Some("RATE_LIMIT_ERROR")
      case Adapter(_, _) => Some("ADAPTER_ERROR")
      case Plain(_) => None
    }

    /** The `message` property. */
    function Message(): string {
      match this
      case SpecBridgeError(m, _) => m
      case ConfigNotFound(p) => "Configuration file not found: " + p
      case ConfigParse(d) => ParsePrefix + d
      case Authentication(p) => "Authentication failed for " + p + ". Please check your credentials."
      case RateLimit(p, after) => "Rate limit exceeded for " + p + "." + RetrySuffix(after)
      case Adapter(n, d) => "Adapter '" + n + "' error: " + d
      case Plain(t) => t
    }
  }

  const ParsePrefix := "Failed to parse configuration: "

  /** JavaScript truthiness of an optional number: absent and 0 are falsy. */
  predicate TruthyNumber(n: Option<int>) {
    n.Some? && n.value != 0
  }

  function RetrySuffix(after: Option<int>): string {
    if TruthyNumber(after) then " Retry after " + Text.IntToString(after.value) + "s" else ""
  }

  /** The five subclasses have pairwise-distinct codes, so the code of a
      subclass instance determines its class. */
  lemma CodeDeterminesClass(e1: Error, e2: Error)
    requires e1.IsSubclass() && e2.IsSubclass()
    ensures e1.Code() == e2.Code() <==> e1.Name() == e2.Name()
  {
  }

  /** The shape of each subclass's message: the fixed wording around the
      constructor arguments. */
  lemma MessageShapes(e: Error)
    ensures e.ConfigNotFound? ==> Text.EndsWith(e.Message(), e.path)
    ensures e.ConfigParse? ==> ParsePrefix <= e.Message() && Text.EndsWith(e.Message(), e.detail)
    ensures e.Adapter? ==> "Adapter '" + e.adapterName + "' error: " <= e.Message()
    ensures e.Adapter? ==> Text.EndsWith(e.Message(), e.detail)
    ensures e.Authentication? ==> "Authentication failed for " + e.platform <= e.Message()
    ensures e.Authentication? ==> Text.EndsWith(e.Message(), ". Please check your credentials.")
  {
  }

  /** A rate-limit message ends with the retry hint exactly when `retryAfter`
      is truthy, and with the bare platform sentence otherwise. */
  lemma RateLimitRetryHint(platform: string, after: Option<int>)
    ensures var m := RateLimit(platform, after).Message();
      "Rate limit exceeded for " + platform + "." <= m
      && (TruthyNumber(after) ==> Text.EndsWith(m, " Retry after " + Text.IntToString(after.value) + "s"))
      && (!TruthyNumber(after) ==> Text.EndsWith(m, platform + "."))
      && (Text.EndsWith(m, "s") <==> TruthyNumber(after))
  {
    var m := RateLimit(platform, after).Message();
    var head := "Rate limit exceeded for " + platform + ".";
    if TruthyNumber(after) {
      var hint := " Retry after " + Text.IntToString(after.value) + "s";
      assert m == head + hint;
      assert m[|m| - 1] == hint[|hint| - 1] == 's';
    } else {
      assert m == head;
      assert m[|m| - 1] == '.';
    }
  }
}
