/** Tokens and the store snapshot the token input reads: the token map, the freeze white list
    and the "show user-added tokens" display setting. */
module Tokens {

  /** A token as the selector hands it over. `tokenType` is "" when the token has no type. */
  datatype Token = Token(address: string, decimals: nat, tokenType: string, tags: seq<string>, userAdded: bool)

  /** `tokenMap`, `whiteListMap` and `displayTokenSettings.userAdded`. */
  datatype Store = Store(tokenMap: map<string, Token>, whiteList: set<string>, showUserAdded: bool)

  /** The copy handed to the token list on registration: `{ ...token, userAdded: true }`. */
  function AsUserAdded(t: Token): (r: Token)
    ensures r.userAdded && r.address == t.address && r.decimals == t.decimals
    ensures r.tokenType == t.tokenType && r.tags == t.tags
  {
    t.(userAdded := true)
  }

  /** Untyped, typed 'unknown', or tagged 'unknown'. */
  predicate LooksUnknown(t: Token) {
    t.tokenType == "" || t.tokenType == "unknown" || "unknown" in t.tags
  }

  /** `isUnknownToken`: a token that looks unknown, unless the map holds it as user-added and
      user-added tokens are shown. */
  function IsUnknownToken(store: Store, t: Token): (r: bool)
    ensures r <==> (LooksUnknown(t) &&
      !(t.address in store.tokenMap && store.tokenMap[t.address].userAdded && store.showUserAdded))
  {
    var isUnknown := LooksUnknown(t);
    var isTrusted := isUnknown && t.address in store.tokenMap && store.tokenMap[t.address].userAdded;
    isUnknown && (!isTrusted || !store.showUserAdded)
  }

  /** `isFreezeToken`: tagged 'hasFreeze' and not on the white list. */
  function IsFreezeToken(store: Store, t: Token): bool {
    "hasFreeze" in t.tags && t.address !in store.whiteList
  }

  /** The store once a registration has reached the token map. */
  function WithRegistered(store: Store, t: Token): Store {
    store.(tokenMap := store.tokenMap[t.address := AsUserAdded(t)])
  }

  /** Once a token's user-added copy is in the map and user-added tokens are shown, it is no
      longer unknown; with the setting off it stays unknown however often it is registered.
      Registration does not change whether a token needs the freeze warning. */
  lemma RegisteredIsKnown(store: Store, t: Token)
    ensures store.showUserAdded ==> !IsUnknownToken(WithRegistered(store, t), t)
    ensures !store.showUserAdded ==> IsUnknownToken(WithRegistered(store, t), t) == LooksUnknown(t)
    ensures IsFreezeToken(WithRegistered(store, t), t) == IsFreezeToken(store, t)
  {
  }

  /** A token that looks known is never unknown, and a white-listed one never needs the freeze
      warning, whatever the store holds. */
  lemma ClassifierBounds(store: Store, t: Token)
    ensures !LooksUnknown(t) ==> !IsUnknownToken(store, t)
    ensures t.address in store.whiteList ==> !IsFreezeToken(store, t)
    ensures "hasFreeze" !in t.tags ==> !IsFreezeToken(store, t)
  {
  }
}
