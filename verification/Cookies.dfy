/** The Cookie record of cookie.cpp. */
module Cookies {
  const TICKS_PER_SECOND := 1_000_000_000

  /** A std::chrono::system_clock time: nanoseconds since the epoch in 64 bits. */
  type Ticks = t: int | -0x8000_0000_0000_0000 <= t < 0x8000_0000_0000_0000

  datatype Cookie = Cookie(name: string, value: string, domain: string, path: string,
                           expires: Ticks, secure: bool, httponly: bool, samesite: string)
  {
    predicate IsExpired(now: Ticks) {
      expires < now
    }

    predicate Matches(requestDomain: string, requestPath: string) {
      && (domain == "" || requestDomain == domain || EndsWith(requestDomain, domain))
      && (path == "" || path <= requestPath)
    }

    /** Whether the jar hands the cookie out for a request. */
    predicate IsFor(requestDomain: string, requestPath: string, now: Ticks) {
      !IsExpired(now) && Matches(requestDomain, requestPath)
    }
  }

  predicate EndsWith(s: string, suffix: string) {
    |s| > |suffix| && s[|s| - |suffix|..] == suffix
  }
}
