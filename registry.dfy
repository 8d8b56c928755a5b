/**
  The registry of directive names the parser recognises. The default content
  is the fixed list of Content-Security-Policy fetch and worker directives;
  callers may add names at run time but never remove any.
 */
module Registry {
  import opened Text

  /** The names every registry starts with. */
  const DefaultDirectives: set<string> := {
    "child-src",
    "connect-src",
    "default-src",
    "fenced-frame-src",
    "font-src",
    "frame-src",
    "img-src",
    "manifest-src",
    "media-src",
    "object-src",
    "prefetch-src",
    "script-src",
    "script-src-elem",
    "script-src-attr",
    "style-src",
    "style-src-elem",
    "style-src-attr",
    "worker-src"
  }

  /** The lowercase form of every name in `names`. */
  function LowerAll(names: set<string>): (r: set<string>)
    ensures forall n :: n in names ==> Lower(n) in r
    ensures forall m :: m in r ==> NoUpper(m) && exists n :: n in names && Lower(n) == m
  {
    assert forall n :: NoUpper(Lower(n)) by {
      forall n ensures NoUpper(Lower(n)) { LowerShape(n); }
    }
    set n | n in names :: Lower(n)
  }

  /** Every name a registry holds is lowercase. */
  ghost predicate AllLowercase(names: set<string>) {
    forall n :: n in names ==> NoUpper(n)
  }

  /** The names of the frame, connection and font directives are lowercase. */
  lemma FrameAndFontNamesLowercase()
    ensures NoUpper("child-src")
         && NoUpper("connect-src")
         && NoUpper("default-src")
         && NoUpper("fenced-frame-src")
         && NoUpper("font-src")
         && NoUpper("frame-src")
  {
  }

  /** The names of the image, manifest, media, object, prefetch and worker directives are lowercase. */
  lemma ResourceNamesLowercase()
    ensures NoUpper("img-src")
         && NoUpper("manifest-src")
         && NoUpper("media-src")
         && NoUpper("object-src")
         && NoUpper("prefetch-src")
         && NoUpper("worker-src")
  {
  }

  /** The names of the script and style directives are lowercase. */
  lemma ScriptAndStyleNamesLowercase()
    ensures NoUpper("script-src")
         && NoUpper("script-src-elem")
         && NoUpper("script-src-attr")
         && NoUpper("style-src")
         && NoUpper("style-src-elem")
         && NoUpper("style-src-attr")
  {
  }

  /** Every default name is lowercase. */
  lemma DefaultsLowercase()
    ensures AllLowercase(DefaultDirectives)
  {
    FrameAndFontNamesLowercase();
    ResourceNamesLowercase();
    ScriptAndStyleNamesLowercase();
  }

  class DirectiveRegistry {
    var names: set<string>

    ghost predicate Valid()
      reads this
    {
      AllLowercase(names)
    }

    /** A fresh registry holding the default directive names. */
    constructor ()
      ensures Valid()
      ensures names == DefaultDirectives
    {
      names := DefaultDirectives;
      DefaultsLowercase();
    }

    /**
      Adds the lowercase form of every given name. Nothing is removed, and
      adding a name that is already present changes nothing.
     */
    method Override(directives: set<string>)
      requires Valid()
      modifies this
      ensures Valid()
      ensures names == old(names) + LowerAll(directives)
    {
      names := names + LowerAll(directives);
    }
  }
}
