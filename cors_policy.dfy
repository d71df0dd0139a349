/**
 * The CORS policy override (`Environment.cors`): as soon as any variable whose name starts
 * with `CORS_` is set, the ZCML override file is written with a `<plone:CORSPolicy>` whose
 * six attributes come from the CORS_* variables or their defaults.
 */
module CorsPolicy {
  import opened Wrappers
  import opened Text
  import opened Environ

  const Prefix := "CORS_"

  /** The six attribute values of the policy */
  datatype Policy = Policy(
    allowOrigin: string, allowMethods: string, allowCredentials: string,
    exposeHeaders: string, allowHeaders: string, maxAge: string)

  /** Some variable of the environment has a name starting with `CORS_` */
  predicate Triggered(env: Env) {
    exists name :: name in env && Prefix <= name
  }

  /** The documented default of each attribute */
  const DefaultOrigin := "http://localhost:3000,http://127.0.0.1:3000"
  const DefaultMethods := "DELETE,GET,OPTIONS,PATCH,POST,PUT"
  const DefaultCredentials := "true"
  const DefaultExposeHeaders := "Content-Length,X-My-Header"
  const DefaultHeaders := "Accept,Authorization,Content-Type,X-Custom-Header"
  const DefaultMaxAge := "3600"

  /** The policy, from the variables or their defaults */
  function PolicyOf(env: Env): Policy {
    Policy(
      Get(env, Prefix + "ALLOW_ORIGIN", DefaultOrigin),
      Get(env, Prefix + "ALLOW_METHODS", DefaultMethods),
      Get(env, Prefix + "ALLOW_CREDENTIALS", DefaultCredentials),
      Get(env, Prefix + "EXPOSE_HEADERS", DefaultExposeHeaders),
      Get(env, Prefix + "ALLOW_HEADERS", DefaultHeaders),
      Get(env, Prefix + "MAX_AGE", DefaultMaxAge))
  }

  /** One attribute line of the `<plone:CORSPolicy>` element */
  function Attr(name: string, value: string): string {
    "      " + name + "=\"" + value + "\"\n"
  }

  /** The template around the attributes, as fixed text */
  const Head := "<configure\n  xmlns=\"http://namespaces.zope.org/zope\">\n  <configure\n"
    + "    xmlns=\"http://namespaces.zope.org/zope\"\n"
    + "    xmlns:plone=\"http://namespaces.plone.org/plone\">\n    <plone:CORSPolicy\n"
  const Tail := "     />\n  </configure>\n</configure>\n"

  function Attributes(p: Policy): string {
    Attr("allow_origin", p.allowOrigin)
      + (Attr("allow_methods", p.allowMethods)
      + (Attr("allow_credentials", p.allowCredentials)
      + (Attr("expose_headers", p.exposeHeaders)
      + (Attr("allow_headers", p.allowHeaders)
      + Attr("max_age", p.maxAge)))))
  }

  /** The filled-in template */
  function CorsText(p: Policy): string {
    Head + (Attributes(p) + Tail)
  }

  /** What the step writes to the override file: nothing unless it is triggered */
  function CorsWrite(env: Env): Option<string> {
    if Triggered(env) then Some(CorsText(PolicyOf(env))) else None
  }

  // ---------------------------------------------------------------------------------------

  lemma PrefixOf(rest: string)
    ensures Prefix <= Prefix + rest
  {
  }

  /** Each attribute whose own variable is not set takes its documented default, whatever
      else the environment holds */
  lemma PolicyDefaults(env: Env)
    ensures Prefix + "ALLOW_ORIGIN" !in env ==>
      PolicyOf(env).allowOrigin == DefaultOrigin
    ensures Prefix + "ALLOW_METHODS" !in env ==>
      PolicyOf(env).allowMethods == DefaultMethods
    ensures Prefix + "ALLOW_CREDENTIALS" !in env ==> PolicyOf(env).allowCredentials == DefaultCredentials
    ensures Prefix + "EXPOSE_HEADERS" !in env ==>
      PolicyOf(env).exposeHeaders == DefaultExposeHeaders
    ensures Prefix + "ALLOW_HEADERS" !in env ==>
      PolicyOf(env).allowHeaders == DefaultHeaders
    ensures Prefix + "MAX_AGE" !in env ==> PolicyOf(env).maxAge == DefaultMaxAge
  {
  }

  /** `a + (b + c)` contains `b` */
  lemma ContainsMiddle(a: string, b: string, c: string)
    ensures Contains(a + (b + c), b)
  {
    ContainsPrefix(b, c);
    ContainsAfter(a, b + c, b);
  }

  /** Each of six pieces is contained in a text made of them between a head and a tail */
  lemma ContainsPieces(h: string, a1: string, a2: string, a3: string, a4: string,
                       a5: string, a6: string, t: string)
    ensures var u := h + ((a1 + (a2 + (a3 + (a4 + (a5 + a6))))) + t);
      Contains(u, a1) && Contains(u, a2) && Contains(u, a3)
      && Contains(u, a4) && Contains(u, a5) && Contains(u, a6)
  {
    var r5 := a5 + a6;
    var r4 := a4 + r5;
    var r3 := a3 + r4;
    var r2 := a2 + r3;
    var r1 := a1 + r2;
    var u := h + (r1 + t);
    ContainsMiddle(h, r1, t);
    Step(u, a1, r2);
    Step(u, a2, r3);
    Step(u, a3, r4);
    Step(u, a4, r5);
    Step(u, a5, a6);
  }

  /** A text containing `a + b` contains `a` and `b` */
  lemma Step(u: string, a: string, b: string)
    requires Contains(u, a + b)
    ensures Contains(u, a) && Contains(u, b)
  {
    ContainsPrefix(a, b);
    ContainsWithin(u, a + b, a);
    ContainsMiddle(a, b, []);
    assert a + (b + []) == a + b;
    ContainsWithin(u, a + b, b);
  }

  /** Every value of the policy appears in the written file as its own attribute line */
  lemma CorsTextAttributes(p: Policy)
    ensures Contains(CorsText(p), Attr("allow_origin", p.allowOrigin))
    ensures Contains(CorsText(p), Attr("allow_methods", p.allowMethods))
    ensures Contains(CorsText(p), Attr("allow_credentials", p.allowCredentials))
    ensures Contains(CorsText(p), Attr("expose_headers", p.exposeHeaders))
    ensures Contains(CorsText(p), Attr("allow_headers", p.allowHeaders))
    ensures Contains(CorsText(p), Attr("max_age", p.maxAge))
  {
    ContainsPieces(Head, Attr("allow_origin", p.allowOrigin),
      Attr("allow_methods", p.allowMethods), Attr("allow_credentials", p.allowCredentials),
      Attr("expose_headers", p.exposeHeaders), Attr("allow_headers", p.allowHeaders),
      Attr("max_age", p.maxAge), Tail);
  }

  /** A CORS_* variable that is set ends up in the written file as its attribute */
  lemma CorsWriteUses(env: Env)
    requires Prefix + "ALLOW_ORIGIN" in env
    ensures CorsWrite(env).Some?
    ensures Contains(CorsWrite(env).value, Attr("allow_origin", env[Prefix + "ALLOW_ORIGIN"]))
  {
    PrefixOf("ALLOW_ORIGIN");
    CorsTextAttributes(PolicyOf(env));
  }

  /** Once the step is triggered, by any CORS_* variable, every attribute whose variable is
      not set is written with its default: `CORS_MAX_AGE` alone writes the default origins */
  lemma CorsWriteDefaults(env: Env)
    requires Triggered(env)
    ensures CorsWrite(env).Some?
    ensures Prefix + "ALLOW_ORIGIN" !in env ==> Contains(CorsWrite(env).value,
      Attr("allow_origin", DefaultOrigin))
    ensures Prefix + "ALLOW_METHODS" !in env ==> Contains(CorsWrite(env).value,
      Attr("allow_methods", DefaultMethods))
    ensures Prefix + "ALLOW_CREDENTIALS" !in env ==> Contains(CorsWrite(env).value,
      Attr("allow_credentials", DefaultCredentials))
    ensures Prefix + "EXPOSE_HEADERS" !in env ==> Contains(CorsWrite(env).value,
      Attr("expose_headers", DefaultExposeHeaders))
    ensures Prefix + "ALLOW_HEADERS" !in env ==> Contains(CorsWrite(env).value,
      Attr("allow_headers", DefaultHeaders))
    ensures Prefix + "MAX_AGE" !in env ==> Contains(CorsWrite(env).value, Attr("max_age", DefaultMaxAge))
  {
    PolicyDefaults(env);
    CorsTextAttributes(PolicyOf(env));
  }
}
