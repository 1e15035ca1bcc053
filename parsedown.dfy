/**
 * The extension manager: a Parsedown subclass that keeps a registry of
 * block and inline extensions, adds their starting characters to the
 * host's block and inline type tables and inline marker list, and answers
 * the host's convention-named method lookups by forwarding them to the
 * registered extension.
 *
 * Extension objects are values of the type parameter `E`. What the
 * manager asks of them from outside its own code (their object hash,
 * their starting character, their class name) and what it asks of the
 * host parser (the native continuable/completable answers) are constant
 * functions fixed when the manager is built.
 */
module ExtensionManager {
  import opened Wrappers
  import opened PhpStrings
  import opened Routing

  /** The fully qualified PHP class name that `__CLASS__` yields. */
  const CLASS_NAME := "Nessworthy\\ParsedownExtensionManager\\Parsedown"

  /** The three exceptions the manager throws. */
  datatype Error =
    | InvalidArgument(message: string)    // \InvalidArgumentException, at registration
    | ExtensionNotFound(message: string)  // ExtensionNotFoundException, at dispatch
    | UndefinedMethod(message: string)    // \Error, for a name matching neither prefix

  /** A call forwarded to an extension: which capability, on which extension, with which arguments. */
  datatype Invocation<E, A> =
    | Start(extension: E, line: Option<A>, block: Option<A>)
    | Continue(extension: E, line: Option<A>, block: Option<A>)
    | Complete(extension: E, block: Option<A>)
    | Run(extension: E, excerpt: Option<A>)

  /** `$arguments[i]`: reading past the end yields PHP's `null`, here `None`. */
  function Arg<A>(args: seq<A>, i: nat): Option<A> {
    if i < |args| then Some(args[i]) else None
  }

  /**
   * The call `__call` makes once it has found the extension: `continue`
   * and `start` get the first two arguments, `complete` and `run` the first.
   */
  function Invoke<E, A>(route: Route, extension: E, args: seq<A>): Invocation<E, A>
    requires !route.Undefined?
  {
    match route
    case BlockContinue(_) => Continue(extension, Arg(args, 0), Arg(args, 1))
    case BlockComplete(_) => Complete(extension, Arg(args, 0))
    case BlockStart(_) => Start(extension, Arg(args, 0), Arg(args, 1))
    case InlineRun(_) => Run(extension, Arg(args, 0))
  }

  /** The identities listed for character `c` in a type table; absent means an empty list. */
  function TypeList(types: map<char, seq<string>>, c: char): seq<string> {
    if c in types then types[c] else []
  }

  /** Distinct objects have distinct hashes. */
  ghost predicate Injective<E(!new)>(f: E -> string) {
    forall a, b :: f(a) == f(b) ==> a == b
  }

  class Parsedown<E(!new)> {
    /** `spl_object_hash($extension)`. */
    const identity: E -> string
    /** `$extension->getStartingCharacter()`. */
    const startingCharacter: E -> string
    /** `get_class($extension)`. */
    const className: E -> string
    /** The host's native `isBlockContinuable` and `isBlockCompletable`. */
    const hostContinuable: string -> bool
    const hostCompletable: string -> bool

    /** `registeredExtensions['block']` and `registeredExtensions['inline']`. */
    var blockExtensions: map<string, E>
    var inlineExtensions: map<string, E>
    /** The host's `BlockTypes` and `InlineTypes`: character to identities, tried in order. */
    var blockTypes: map<char, seq<string>>
    var inlineTypes: map<char, seq<string>>
    /** The host's `inlineMarkerList`. */
    var inlineMarkerList: string

    /** A registered extension is filed under its own identity and listed under its key character. */
    ghost predicate Indexed(id: string, extension: E, types: map<char, seq<string>>) {
      && identity(extension) == id
      && !Empty(startingCharacter(extension))
      && id in TypeList(types, startingCharacter(extension)[0])
    }

    /** Every extension in the registry is indexed in the type table. */
    ghost predicate AllIndexed(exts: map<string, E>, types: map<char, seq<string>>) {
      forall id :: id in exts ==> Indexed(id, exts[id], types)
    }

    /** The key character of every extension in the registry is a marker. */
    ghost predicate AllMarked(exts: map<string, E>, markers: string) {
      forall id :: id in exts && !Empty(startingCharacter(exts[id])) ==>
        startingCharacter(exts[id])[0] in markers
    }

    ghost predicate Valid()
      reads this
    {
      && Injective(identity)
      && Distinct(inlineMarkerList)
      && AllIndexed(blockExtensions, blockTypes)
      && AllIndexed(inlineExtensions, inlineTypes)
      && AllMarked(inlineExtensions, inlineMarkerList)
    }

    /**
     * A manager over the host's initial tables, with no extension
     * registered yet.
     */
    constructor (identity: E -> string, startingCharacter: E -> string, className: E -> string,
                 hostContinuable: string -> bool, hostCompletable: string -> bool,
                 blockTypes: map<char, seq<string>>, inlineTypes: map<char, seq<string>>,
                 inlineMarkerList: string)
      requires Injective(identity) && Distinct(inlineMarkerList)
      ensures Valid()
      ensures this.identity == identity && this.startingCharacter == startingCharacter
      ensures this.className == className
      ensures this.hostContinuable == hostContinuable && this.hostCompletable == hostCompletable
      ensures blockExtensions == map[] && inlineExtensions == map[]
      ensures this.blockTypes == blockTypes && this.inlineTypes == inlineTypes
      ensures this.inlineMarkerList == inlineMarkerList
    {
      this.identity := identity;
      this.startingCharacter := startingCharacter;
      this.className := className;
      this.hostContinuable := hostContinuable;
      this.hostCompletable := hostCompletable;
      this.blockTypes := blockTypes;
      this.inlineTypes := inlineTypes;
      this.inlineMarkerList := inlineMarkerList;
      blockExtensions := map[];
      inlineExtensions := map[];
    }

    /**
     * `getExtensionCharacter`: the first character of the starting
     * character string, or `InvalidArgumentException` when PHP's
     * `empty()` holds of that string (it is `""` or `"0"`).
     */
    function ExtensionCharacter(extension: E): (r: Result<char, Error>)
      ensures r.Success? <==> startingCharacter(extension) !in {"", "0"}
      ensures r.Success? ==> r.value == startingCharacter(extension)[0]
      ensures r.Failure? ==>
        r.error == InvalidArgument("Extension " + className(extension) + " is missing a starting character!")
    {
      var s := startingCharacter(extension);
      if Empty(s) then
        Failure(InvalidArgument("Extension " + className(extension) + " is missing a starting character!"))
      else
        Success(s[0])
    }

    /** `findBlockExtension`: the registered block extension, or `ExtensionNotFoundException`. */
    function FindBlockExtension(id: string): (r: Result<E, Error>)
      reads this
      ensures r.Success? <==> id in blockExtensions
      ensures r.Success? ==> r.value == blockExtensions[id]
      ensures r.Success? && Valid() ==> identity(r.value) == id
      ensures r.Failure? ==> r.error == ExtensionNotFound("Block extension " + id + " not found!")
    {
      if id !in blockExtensions then
        Failure(ExtensionNotFound("Block extension " + id + " not found!"))
      else
        Success(blockExtensions[id])
    }

    /** `findInlineExtension`: the registered inline extension, or `ExtensionNotFoundException`. */
    function FindInlineExtension(id: string): (r: Result<E, Error>)
      reads this
      ensures r.Success? <==> id in inlineExtensions
      ensures r.Success? ==> r.value == inlineExtensions[id]
      ensures r.Success? && Valid() ==> identity(r.value) == id
      ensures r.Failure? ==> r.error == ExtensionNotFound("Inline extension " + id + " not found!")
    {
      if id !in inlineExtensions then
        Failure(ExtensionNotFound("Inline extension " + id + " not found!"))
      else
        Success(inlineExtensions[id])
    }

    /** `isBlockContinuable`: the host's answer, widened to every registered block identity. */
    function IsBlockContinuable(t: string): (r: bool)
      reads this
      ensures t in blockExtensions ==> r
      ensures t !in blockExtensions ==> r == hostContinuable(t)
    {
      hostContinuable(t) || t in blockExtensions
    }

    /** `isBlockCompletable`: the host's answer, widened to every registered block identity. */
    function IsBlockCompletable(t: string): (r: bool)
      reads this
      ensures t in blockExtensions ==> r
      ensures t !in blockExtensions ==> r == hostCompletable(t)
    {
      hostCompletable(t) || t in blockExtensions
    }

    /**
     * `__call` up to the point where it calls the extension: parse the
     * name, find the extension for the identity in it, and say which of its
     * capabilities is called with which arguments.
     */
    function Dispatch<A>(name: string, args: seq<A>): (r: Result<Invocation<E, A>, Error>)
      reads this
      ensures !(BLOCK <= name) && !(INLINE <= name) ==>
        r == Failure(UndefinedMethod("Call to undefined method " + CLASS_NAME + "::" + name))
      ensures BLOCK <= name ==>
        var id := RouteOf(name).id;
        if id in blockExtensions then r == Success(Invoke(RouteOf(name), blockExtensions[id], args))
        else r == Failure(ExtensionNotFound("Block extension " + id + " not found!"))
      ensures !(BLOCK <= name) && INLINE <= name ==>
        var id := RouteOf(name).id;
        if id in inlineExtensions then r == Success(Run(inlineExtensions[id], Arg(args, 0)))
        else r == Failure(ExtensionNotFound("Inline extension " + id + " not found!"))
    {
      var route := RouteOf(name);
      match route
      case Undefined(_) =>
        Failure(UndefinedMethod("Call to undefined method " + CLASS_NAME + "::" + name))
      case InlineRun(id) =>
        var found := FindInlineExtension(id);
        if found.Failure? then Failure(found.error) else Success(Invoke(route, found.value, args))
      case _ =>
        var found := FindBlockExtension(route.id);
        if found.Failure? then Failure(found.error) else Success(Invoke(route, found.value, args))
    }

    /**
     * `__call` in full: the extension's answer, computed by the foreign
     * code `perform`, is handed back to the host unchanged.
     */
    function Call<A, R>(name: string, args: seq<A>, perform: Invocation<E, A> -> R): (r: Result<R, Error>)
      reads this
      ensures r.Success? <==> Dispatch(name, args).Success?
      ensures r.Success? ==> r.value == perform(Dispatch(name, args).value)
      ensures r.Failure? ==> r.error == Dispatch(name, args).error
    {
      var invocation := Dispatch(name, args);
      if invocation.Failure? then Failure(invocation.error) else Success(perform(invocation.value))
    }

    /** `addToMarkerList`: append the character unless it is already a marker. */
    method AddToMarkerList(c: char)
      modifies this`inlineMarkerList
      ensures inlineMarkerList ==
        if c in old(inlineMarkerList) then old(inlineMarkerList) else old(inlineMarkerList) + [c]
      ensures old(inlineMarkerList) <= inlineMarkerList && c in inlineMarkerList
      ensures forall m :: m in old(inlineMarkerList) ==> m in inlineMarkerList
      ensures Distinct(old(inlineMarkerList)) ==> Distinct(inlineMarkerList)
    {
      StrPosCharacter(inlineMarkerList, c);
      if StrPos(inlineMarkerList, [c]).None? {
        inlineMarkerList := inlineMarkerList + [c];
      }
    }

    /**
     * Filing an extension under its identity and appending the identity to
     * its character's list keeps every registered extension indexed, and,
     * hashes being injective, leaves every earlier entry as it was.
     */
    lemma FilingKeepsIndex(exts: map<string, E>, types: map<char, seq<string>>, extension: E)
      requires Injective(identity) && !Empty(startingCharacter(extension))
      requires AllIndexed(exts, types)
      ensures var c, id := startingCharacter(extension)[0], identity(extension);
        AllIndexed(exts[id := extension], types[c := TypeList(types, c) + [id]])
      ensures forall x :: x in exts ==> exts[identity(extension) := extension][x] == exts[x]
    {
      var c, id := startingCharacter(extension)[0], identity(extension);
      var exts', types' := exts[id := extension], types[c := TypeList(types, c) + [id]];
      forall x | x in exts'
        ensures Indexed(x, exts'[x], types')
      {
        if x != id {
          var k := startingCharacter(exts[x])[0];
          assert TypeList(types, k) <= TypeList(types', k);
        }
      }
    }

    /** Marking the new extension's character, in a list that only grows, keeps every key marked. */
    lemma MarkingKeepsMarks(exts: map<string, E>, markers: string, markers': string, extension: E)
      requires AllMarked(exts, markers)
      requires forall m :: m in markers ==> m in markers'
      requires !Empty(startingCharacter(extension)) && startingCharacter(extension)[0] in markers'
      ensures AllMarked(exts[identity(extension) := extension], markers')
    {
    }

    /**
     * `registerBlockExtension`: the starting character is checked before
     * anything is written; then the extension is filed under its identity
     * and the identity is appended to the block type list of its character.
     */
    method RegisterBlockExtension(extension: E) returns (outcome: Outcome<Error>)
      requires Valid()
      modifies this`blockExtensions, this`blockTypes
      ensures Valid()
      ensures outcome.Fail? <==> Empty(startingCharacter(extension))
      ensures outcome.Fail? ==> outcome == Fail(ExtensionCharacter(extension).error) && unchanged(this)
      ensures outcome.Pass? ==>
        var c := startingCharacter(extension)[0];
        && blockExtensions == old(blockExtensions)[identity(extension) := extension]
        && blockTypes == old(blockTypes)[c := TypeList(old(blockTypes), c) + [identity(extension)]]
      ensures forall id :: id in old(blockExtensions) ==>
        id in blockExtensions && blockExtensions[id] == old(blockExtensions)[id]
      ensures outcome.Pass? ==> FindBlockExtension(identity(extension)) == Success(extension)
      ensures outcome.Pass? ==>
        IsBlockContinuable(identity(extension)) && IsBlockCompletable(identity(extension))
    {
      var id := identity(extension);
      var character := ExtensionCharacter(extension);
      if character.Failure? {
        return Fail(character.error);
      }
      var c := character.value;
      FilingKeepsIndex(blockExtensions, blockTypes, extension);
      blockExtensions := blockExtensions[id := extension];
      if c !in blockTypes {
        blockTypes := blockTypes[c := []];
      }
      blockTypes := blockTypes[c := blockTypes[c] + [id]];
      outcome := Pass;
    }

    /**
     * `registerInlineExtension`: as for blocks, on the inline tables, and
     * the character also becomes an inline marker.
     */
    method RegisterInlineExtension(extension: E) returns (outcome: Outcome<Error>)
      requires Valid()
      modifies this`inlineExtensions, this`inlineTypes, this`inlineMarkerList
      ensures Valid()
      ensures outcome.Fail? <==> Empty(startingCharacter(extension))
      ensures outcome.Fail? ==> outcome == Fail(ExtensionCharacter(extension).error) && unchanged(this)
      ensures outcome.Pass? ==>
        var c := startingCharacter(extension)[0];
        && inlineExtensions == old(inlineExtensions)[identity(extension) := extension]
        && inlineTypes == old(inlineTypes)[c := TypeList(old(inlineTypes), c) + [identity(extension)]]
        && inlineMarkerList ==
             if c in old(inlineMarkerList) then old(inlineMarkerList) else old(inlineMarkerList) + [c]
      ensures forall id :: id in old(inlineExtensions) ==>
        id in inlineExtensions && inlineExtensions[id] == old(inlineExtensions)[id]
      ensures outcome.Pass? ==> startingCharacter(extension)[0] in inlineMarkerList
      ensures outcome.Pass? ==> FindInlineExtension(identity(extension)) == Success(extension)
    {
      var id := identity(extension);
      var character := ExtensionCharacter(extension);
      if character.Failure? {
        return Fail(character.error);
      }
      var c := character.value;
      FilingKeepsIndex(inlineExtensions, inlineTypes, extension);
      inlineExtensions := inlineExtensions[id := extension];
      if c !in inlineTypes {
        inlineTypes := inlineTypes[c := []];
      }
      inlineTypes := inlineTypes[c := inlineTypes[c] + [id]];
      assert inlineTypes == old(inlineTypes)[c := TypeList(old(inlineTypes), c) + [id]];
      assert AllIndexed(inlineExtensions, inlineTypes);
      ghost var markers := inlineMarkerList;
      AddToMarkerList(c);
      MarkingKeepsMarks(old(inlineExtensions), markers, inlineMarkerList, extension);
      outcome := Pass;
    }
  }

  /**
   * Each name the host builds for a block identity reaches the extension
   * registered under it, with the arguments of its phase, or fails naming
   * the identity when none is registered.
   */
  lemma BlockNamesDispatch<E(!new), A>(p: Parsedown<E>, id: string, args: seq<A>)
    ensures Routable(BlockStart(id)) ==>
      p.Dispatch(BLOCK + id, args) ==
        if id in p.blockExtensions then Success(Start(p.blockExtensions[id], Arg(args, 0), Arg(args, 1)))
        else Failure(ExtensionNotFound("Block extension " + id + " not found!"))
    ensures !Occurs(id, CONTINUE) ==>
      p.Dispatch(BLOCK + id + CONTINUE, args) ==
        if id in p.blockExtensions then Success(Continue(p.blockExtensions[id], Arg(args, 0), Arg(args, 1)))
        else Failure(ExtensionNotFound("Block extension " + id + " not found!"))
    ensures !Occurs(id, COMPLETE) ==>
      p.Dispatch(BLOCK + id + COMPLETE, args) ==
        if id in p.blockExtensions then Success(Complete(p.blockExtensions[id], Arg(args, 0)))
        else Failure(ExtensionNotFound("Block extension " + id + " not found!"))
  {
    RouteOfNameOf(BlockStart(id));
    RouteOfNameOf(BlockContinue(id));
    RouteOfNameOf(BlockComplete(id));
  }

  /**
   * The name `inline` + id reaches the inline extension registered under
   * the identity, or fails naming it.
   */
  lemma InlineNameDispatch<E(!new), A>(p: Parsedown<E>, id: string, args: seq<A>)
    ensures p.Dispatch(INLINE + id, args) ==
      if id in p.inlineExtensions then Success(Run(p.inlineExtensions[id], Arg(args, 0)))
      else Failure(ExtensionNotFound("Inline extension " + id + " not found!"))
  {
    RouteOfNameOf(InlineRun(id));
  }

  /**
   * `__call` on each name the host builds: the answer of the extension
   * method the name selects, on the extension registered under the
   * identity, or the error naming what is missing.
   */
  lemma CallByName<E(!new), A, R>(p: Parsedown<E>, id: string, args: seq<A>, perform: Invocation<E, A> -> R)
    ensures Routable(BlockStart(id)) ==>
      p.Call(BLOCK + id, args, perform) ==
        if id in p.blockExtensions then Success(perform(Start(p.blockExtensions[id], Arg(args, 0), Arg(args, 1))))
        else Failure(ExtensionNotFound("Block extension " + id + " not found!"))
    ensures !Occurs(id, CONTINUE) ==>
      p.Call(BLOCK + id + CONTINUE, args, perform) ==
        if id in p.blockExtensions then Success(perform(Continue(p.blockExtensions[id], Arg(args, 0), Arg(args, 1))))
        else Failure(ExtensionNotFound("Block extension " + id + " not found!"))
    ensures !Occurs(id, COMPLETE) ==>
      p.Call(BLOCK + id + COMPLETE, args, perform) ==
        if id in p.blockExtensions then Success(perform(Complete(p.blockExtensions[id], Arg(args, 0))))
        else Failure(ExtensionNotFound("Block extension " + id + " not found!"))
    ensures p.Call(INLINE + id, args, perform) ==
      if id in p.inlineExtensions then Success(perform(Run(p.inlineExtensions[id], Arg(args, 0))))
      else Failure(ExtensionNotFound("Inline extension " + id + " not found!"))
    ensures !(BLOCK <= id) && !(INLINE <= id) ==>
      p.Call(id, args, perform) == Failure(UndefinedMethod("Call to undefined method " + CLASS_NAME + "::" + id))
  {
    BlockNamesDispatch(p, id, args);
    InlineNameDispatch(p, id, args);
  }

  /**
   * The failing block call of the repository's own tests: the continue
   * phase of the unregistered identity `FakeExtension`, the method name
   * `blockFakeExtensionContinue`.
   */
  lemma UnregisteredBlockCall<E(!new), A>(p: Parsedown<E>, args: seq<A>)
    requires "FakeExtension" !in p.blockExtensions
    ensures p.Dispatch(BLOCK + "FakeExtension" + CONTINUE, args) ==
      Failure(ExtensionNotFound("Block extension " + "FakeExtension" + " not found!"))
  {
    var id := "FakeExtension";
    RoutableWithoutCapitalC(id);
    BlockNamesDispatch(p, id, args);
  }

  /** The failing inline call of the repository's own tests, `inlineFakeExtension`. */
  lemma UnregisteredInlineCall<E(!new), A>(p: Parsedown<E>, args: seq<A>)
    requires "FakeExtension" !in p.inlineExtensions
    ensures p.Dispatch(INLINE + "FakeExtension", args) ==
      Failure(ExtensionNotFound("Inline extension " + "FakeExtension" + " not found!"))
  {
    InlineNameDispatch(p, "FakeExtension", args);
  }

  /** The undefined-method call of the repository's own tests, whatever is registered. */
  lemma UndefinedMethodCall<E(!new), A>(p: Parsedown<E>, args: seq<A>)
    ensures p.Dispatch("methodThatDoesntExist", args) ==
      Failure(UndefinedMethod("Call to undefined method " + CLASS_NAME + "::" + "methodThatDoesntExist"))
  {
    // Not needed for soundness; it keeps the solver from unfolding both string prefixes.
    var name := "methodThatDoesntExist";
    assert !(BLOCK <= name) && !(INLINE <= name) by {
      assert name[0] != BLOCK[0] && name[0] != INLINE[0];
    }
  }

  /**
   * Two block extensions sharing a key character are listed, and so tried
   * by the host, in the order they were registered.
   */
  method RegisterTwoBlockExtensions<E(!new)>(p: Parsedown<E>, first: E, second: E)
    requires p.Valid()
    requires !Empty(p.startingCharacter(first)) && !Empty(p.startingCharacter(second))
    requires p.startingCharacter(first)[0] == p.startingCharacter(second)[0]
    modifies p
    ensures p.Valid()
    ensures var c := p.startingCharacter(first)[0];
      TypeList(p.blockTypes, c) == TypeList(old(p.blockTypes), c) + [p.identity(first), p.identity(second)]
  {
    var outcome := p.RegisterBlockExtension(first);
    outcome := p.RegisterBlockExtension(second);
  }
}
