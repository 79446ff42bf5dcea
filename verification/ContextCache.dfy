/** The request context with its caches of user strings, updated in place, and the lookups that fill and read them. */
module ContextCache {
  import opened Prelude
  import opened Values
  import opened UserInput
  import opened ContextSpec

  class Context {
    var values: Properties
    var cache: Option<set<JsString>>
    var cachePathTraversal: Option<set<JsString>>

    ghost function State(): State
      reads this
    {
      ContextSpec.State(values, cache, cachePathTraversal)
    }

    constructor (values: Properties)
      ensures State() == ContextSpec.State(values, None, None)
    {
      this.values, cache, cachePathTraversal := values, None, None;
    }
  }

  method UpdateContext(context: Context, key: Property, value: Value, ghost env: Env, ghost sep: CodeUnit)
    modifies context
    ensures context.State() == After(env, sep, old(context.State()), Update(key, value))
  {
    context.values := context.values[key := value];
    if IsSourceKey(key) {
      context.cache := None;
      context.cachePathTraversal := None;
    }
  }

  /** Runs in the context that is there, if there is one, after copying the given context onto it; else in the given. */
  method RunWithContext(current: Context?, context: Context, ghost env: Env, ghost sep: CodeUnit)
    returns (active: Context)
    modifies current, context
    ensures current != null ==>
              active == current && active.State() == After(env, sep, old(current.State()), Enter(old(context.State())))
    ensures current != null && current != context ==> unchanged(context)
    ensures current == null ==>
              active == context && forall st :: active.State() == After(env, sep, st, Start(old(context.State())))
  {
    if current != null {
      var bypassRequest := BypassOf(current.values, context.values);
      current.values := current.values + CopiedFrom(context.values);
      current.values := current.values[BypassRequest := bypassRequest];
      current.cache := None;
      current.cachePathTraversal := None;
      active := current;
    } else {
      context.cache := None;
      context.cachePathTraversal := None;
      active := context;
    }
  }

  method ExtractStringsFromUserInputCached(env: Env, context: Context, ghost sep: CodeUnit)
    returns (r: set<JsString>)
    modifies context`cache
    ensures context.State() == After(env, sep, old(context.State()), Strings)
    ensures Found(r) == Reply(env, sep, old(context.State()), Strings)
  {
    if context.cache.Some? {
      return context.cache.value;
    }
    r := ExtractFromSources(env, context);
    context.cache := Some(r);
  }

  /** The loop over the sources. */
  method ExtractFromSources(env: Env, context: Context) returns (userStrings: set<JsString>)
    ensures userStrings == AllStrings(env, context.values)
  {
    userStrings := {};
    for i := 0 to |Sources()|
      invariant userStrings == Union(env, context.values, i)
    {
      var value := Get(context.values, Sources()[i]);
      if !IsTruthy(value) {
        continue;
      }
      var items := ExtractStringsFromUserInput(env, value, 0);
      userStrings := userStrings + items;
    }
  }

  method ExtractPathStringsFromUserInputCached(env: Env, context: Context, sep: CodeUnit)
    returns (r: set<JsString>)
    modifies context`cachePathTraversal
    ensures context.State() == After(env, sep, old(context.State()), PathStrings)
    ensures Found(r) == Reply(env, sep, old(context.State()), PathStrings)
  {
    if context.cachePathTraversal.Some? {
      return context.cachePathTraversal.value;
    }
    var userStrings: set<JsString> := {};
    for i := 0 to |Sources()|
      invariant userStrings == WithSeparator(Union(env, context.values, i), sep)
    {
      var value := Get(context.values, Sources()[i]);
      if !IsTruthy(value) {
        continue;
      }
      var items := ExtractStringsFromUserInput(env, value, 0);
      userStrings := AddAllWithSeparator(items, sep, userStrings);
    }
    context.cachePathTraversal := Some(userStrings);
    return userStrings;
  }

  method AddAllWithSeparator(items: set<JsString>, sep: CodeUnit, strings: set<JsString>) returns (r: set<JsString>)
    ensures r == strings + WithSeparator(items, sep)
  {
    r := strings;
    var rest := items;
    while rest != {}
      invariant rest <= items && r == strings + WithSeparator(items - rest, sep)
    {
      var item :| item in rest;
      rest := rest - {item};
      if sep in item {
        r := r + {item};
      }
    }
  }

  method GetSourceForUserString(env: Env, context: Context, str: JsString, ghost sep: CodeUnit)
    returns (r: Option<Property>)
    ensures From(r) == Reply(env, sep, context.State(), SourceOf(str))
  {
    for i := 0 to |Sources()|
      invariant FirstSource(env, context.values, str, i) == FirstSource(env, context.values, str, 0)
    {
      var value := Get(context.values, Sources()[i]);
      if !IsTruthy(value) {
        continue;
      }
      var userStrings := ExtractStringsFromUserInput(env, value, 0);
      if str in userStrings {
        return Some(Sources()[i]);
      }
    }
    return None;
  }
}
