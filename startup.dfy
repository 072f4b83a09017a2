/** The start-up of the script (script.js:638-662): `app.init` runs the
    thirteen set-up functions in a fixed order, and each of them, like
    `app.init` itself, sets its own `app.*Init` flag on the first call and
    returns at once on any later call. `app.init` runs either from
    `DOMContentLoaded` or straight away. */
module Startup {

  /** The set-up functions, each guarded by its own flag. */
  datatype Setup =
    | BurgerMenu | Anchors | ActiveMenu | Images | FormHandling
    | ScrollAnimations | RippleEffect | CountUpNumbers | ScrollToTop
    | ModalPrivacy | HeaderScroll | ImageAnimations | CardHoverEffects

  /** The order in which `app.init` calls them. */
  const InitOrder: seq<Setup> := [
    BurgerMenu, Anchors, ActiveMenu, Images, FormHandling, ScrollAnimations,
    RippleEffect, CountUpNumbers, ScrollToTop, ModalPrivacy, HeaderScroll,
    ImageAnimations, CardHoverEffects]

  predicate NoDup(s: seq<Setup>) {
    forall i, j :: 0 <= i < j < |s| ==> s[i] != s[j]
  }

  /** Every set-up is called by `app.init`... */
  lemma InitOrderComplete(s: Setup)
    ensures s in InitOrder
  {
  }

  /** ...and each of the thirteen only once. */
  lemma InitOrderNoDup()
    ensures NoDup(InitOrder) && |InitOrder| == 13
  {
    forall i | 0 <= i < |InitOrder| ensures Rank(InitOrder[i]) == i {
    }
  }

  /** The position of each set-up in `InitOrder`. */
  function Rank(s: Setup): nat {
    match s
    case BurgerMenu => 0 case Anchors => 1 case ActiveMenu => 2 case Images => 3
    case FormHandling => 4 case ScrollAnimations => 5 case RippleEffect => 6
    case CountUpNumbers => 7 case ScrollToTop => 8 case ModalPrivacy => 9
    case HeaderScroll => 10 case ImageAnimations => 11 case CardHoverEffects => 12
  }

  /** The `app` object's flags. `ran` records, in order, the set-up bodies
      that got past their guard: the part of the state the guards protect
      (listeners, the notification container, the injected styles). */
  class App {
    var initialized: bool
    var flags: set<Setup>
    ghost var ran: seq<Setup>

    /** A set-up body ran exactly when its flag is set, and at most once. */
    ghost predicate Valid()
      reads this
    {
      NoDup(ran) && (forall s :: s in ran <==> s in flags)
    }

    constructor ()
      ensures Valid() && !initialized && flags == {} && ran == []
    {
      initialized, flags, ran := false, {}, [];
    }

    /** One `initX()`: `if (app.xInit) return; app.xInit = true;` and the body. */
    method RunSetup(s: Setup)
      requires Valid()
      modifies this
      ensures Valid()
      ensures initialized == old(initialized)
      ensures flags == old(flags) + {s}
      ensures ran == if s in old(flags) then old(ran) else old(ran) + [s]
    {
      if s in flags {
        return;
      }
      flags := flags + {s};
      ran := ran + [s];
    }

    /** The set-up calls of `app.init`, one after the other in `order`. */
    method RunAll(order: seq<Setup>)
      requires Valid()
      modifies this
      ensures Valid() && initialized == old(initialized)
      ensures forall s :: s in flags <==> s in old(flags) || s in order
      ensures old(flags) == {} && NoDup(order) ==> ran == order
    {
      if ran != [] {
        assert ran[0] in flags;
      }
      var i := 0;
      while i < |order|
        invariant 0 <= i <= |order|
        invariant Valid() && initialized == old(initialized)
        invariant forall s :: s in flags <==> s in old(flags) || s in order[..i]
        invariant old(flags) == {} && NoDup(order) ==> ran == order[..i]
      {
        RunSetup(order[i]);
        assert order[..i + 1] == order[..i] + [order[i]];
        i := i + 1;
      }
      assert order[..i] == order;
    }

    /** `app.init`: on its first call every set-up whose flag is still clear
        runs, in `InitOrder`; a later call changes nothing. */
    method Init()
      requires Valid()
      modifies this
      ensures Valid() && initialized
      ensures old(initialized) ==> flags == old(flags) && ran == old(ran)
      ensures !old(initialized) ==> forall s :: s in flags
      ensures !old(initialized) && old(flags) == {} ==> ran == InitOrder
    {
      if initialized {
        return;
      }
      initialized := true;
      InitOrderNoDup();
      RunAll(InitOrder);
      forall s ensures s in flags {
        InitOrderComplete(s);
      }
    }
  }

  /** Page load, whichever way `app.init` is reached, followed by any
      number of further calls: every set-up body runs once, in order. */
  method LoadPage(calls: nat) returns (app: App)
    ensures app.Valid() && app.initialized
    ensures app.ran == InitOrder
    ensures forall s :: s in app.flags
  {
    app := new App();
    app.Init();
    var k := 0;
    while k < calls
      invariant app.Valid() && app.initialized
      invariant app.ran == InitOrder
      invariant forall s :: s in app.flags
    {
      app.Init();
      k := k + 1;
    }
  }
}
