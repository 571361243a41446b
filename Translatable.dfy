/** Which changed files the scan keeps: `.properties` files whose path
    contains `/src/main/resources/`, without the `_fr`, `_ja` and `_en`
    variants and without paths mentioning `jndi`, `log4j` or `pom`. */
module Translatable {
  import opened JavaText

  /** Fragments whose presence anywhere in a path excludes it. */
  const ExcludedFragments: seq<string> :=
    ["_fr.properties", "_ja.properties", "_en.properties", "jndi", "log4j", "pom"]

  /** `isTranslatable`. The locale and configuration checks are
      substring tests, not suffix tests. */
  function IsTranslatable(path: string): (r: bool)
    ensures r <==>
      && EndsWith(path, ".properties")
      && Occurs(path, "/src/main/resources/")
      && forall t :: t in ExcludedFragments ==> !Occurs(path, t)
  {
    ContainsIff(path, "/src/main/resources/");
    ContainsIff(path, "_fr.properties");
    ContainsIff(path, "_ja.properties");
    ContainsIff(path, "_en.properties");
    ContainsIff(path, "jndi");
    ContainsIff(path, "log4j");
    ContainsIff(path, "pom");
    && EndsWith(path, ".properties")
    && Contains(path, "/src/main/resources/")
    && !Contains(path, "_fr.properties")
    && !Contains(path, "_ja.properties")
    && !Contains(path, "_en.properties")
    && !Contains(path, "jndi")
    && !Contains(path, "log4j")
    && !Contains(path, "pom")
  }

  /** A French, Japanese or English variant of a bundle is never kept. */
  lemma LocaleVariantRejected(path: string, locale: string)
    requires locale in ["_fr", "_ja", "_en"]
    requires EndsWith(path, locale + ".properties")
    ensures !IsTranslatable(path)
  {
    var t := locale + ".properties";
    assert t == "_fr.properties" || t == "_ja.properties" || t == "_en.properties";
    ContainsSuffix(path, t);
    ContainsIff(path, t);
  }

  /** The file of the French bundle of a module is excluded. */
  lemma FrenchBundleRejected()
    ensures !IsTranslatable("module/src/main/resources/messages_fr.properties")
  {
    LocaleVariantRejected("module/src/main/resources/messages_fr.properties", "_fr");
  }

  /** Because the checks are substring tests, an excluded fragment anywhere
      in a path, even in a directory name, excludes it. */
  lemma ExcludedFragmentRejected(front: string, t: string, back: string)
    requires t in ExcludedFragments
    ensures !IsTranslatable(front + t + back)
  {
    assert (front + t + back)[|front|..|front| + |t|] == t;
    assert OccursAt(front + t + back, t, |front|);
  }
}
