/** The loop that the six converters share, for any step: what holds at the top of an iteration and at the return. */
module ConversionLoop {
  import opened Sequences
  import opened Transcoding

  /** What a call was given: the step, the source, the target before the call, and where it may write. */
  datatype Call<!S, T> = Call(step: seq<S> -> Outcome<T>, src: seq<S>, before: seq<T>, start: nat, end: nat)

  /** The call as a whole, and the target contents it asks for. The output fits in the array, whatever `end` says. */
  ghost predicate Legal<S(!new), T>(c: Call<S, T>) {
    && Fair(c.step) && c.start <= c.end
    && c.start + |Convert(c.step, c.src, c.end - c.start, false).written| <= |c.before|
  }

  ghost function Whole<S(!new), T>(c: Call<S, T>): Conversion<T>
    requires Legal(c)
  {
    Convert(c.step, c.src, c.end - c.start, false)
  }

  /** `target` is the target before the call with `written` stored from `start` on. */
  ghost predicate Holds<T>(target: seq<T>, before: seq<T>, start: nat, written: seq<T>) {
    && start + |written| <= |before|
    && target == before[..start] + written + before[start + |written|..]
  }

  /** From source index `i` and target index `t` on, the rest of the source gives the rest of the whole output. */
  ghost predicate Ahead<S(!new), T>(c: Call<S, T>, i: nat, t: nat, bad: bool) {
    && Legal(c) && i <= |c.src| && c.start <= t <= c.end
    && var rest := Convert(c.step, c.src[i..], c.end - t, bad);
       var all := Whole(c);
       && t - c.start <= |all.written|
       && all.consumed == i + rest.consumed && all.result == rest.result
       && rest.written == all.written[t - c.start..]
  }

  /** The top of an iteration. */
  ghost predicate Going<S(!new), T>(c: Call<S, T>, target: seq<T>, i: nat, t: nat, bad: bool) {
    && Ahead(c, i, t, bad)
    && Holds(target, c.before, c.start, Whole(c).written[..t - c.start])
  }

  /** The return. */
  ghost predicate Finished<S(!new), T>(c: Call<S, T>, target: seq<T>, i: nat, t: nat, result: ConversionResult) {
    && Legal(c)
    && var all := Whole(c);
       && i == all.consumed && t == c.start + |all.written| && result == all.result
       && Holds(target, c.before, c.start, all.written)
  }

  lemma GoingAtStart<S(!new), T>(c: Call<S, T>)
    requires Legal(c)
    ensures Going(c, c.before, 0, c.start, false)
  {
    assert c.src[0..] == c.src;
  }

  lemma GoingAtEnd<S(!new), T>(c: Call<S, T>, target: seq<T>, t: nat, bad: bool)
    requires Going(c, target, |c.src|, t, bad)
    ensures Finished(c, target, |c.src|, t, if bad then SourceIllegal else ConversionOK)
  {
    var all := Whole(c);
    assert all.written == all.written[..t - c.start];
  }

  /** A step that needs more room than is left, or that stops, ends the call; one that emits has its units inside the
      array. */
  lemma GoingStep<S(!new), T>(c: Call<S, T>, target: seq<T>, i: nat, t: nat, bad: bool)
    requires Going(c, target, i, t, bad) && i < |c.src|
    ensures t <= c.end
    ensures var o := c.step(c.src[i..]);
            && (c.end - t < o.need ==> Finished(c, target, i, t, TargetExhausted))
            && (o.need <= c.end - t && o.Stop? ==> Finished(c, target, i, t, o.result))
            && (o.need <= c.end - t && o.Emit? ==> t + |o.units| <= |target| && i + o.consumed <= |c.src|)
  {
    hide Convert, Fair;
    Unfold(c.step, c.src[i..], c.end - t, bad);
    var all := Whole(c);
    if Convert(c.step, c.src[i..], c.end - t, bad).written == [] {
      assert all.written == all.written[..t - c.start];
    }
  }

  lemma AheadOn<S(!new), T>(c: Call<S, T>, i: nat, t: nat, bad: bool)
    requires Ahead(c, i, t, bad) && i < |c.src|
    requires c.step(c.src[i..]).Emit? && c.step(c.src[i..]).need <= c.end - t
    ensures var o := c.step(c.src[i..]);
            var w, k := Whole(c).written, t - c.start;
            && Ahead(c, i + o.consumed, t + |o.units|, bad || o.bad)
            && k + |o.units| <= |w| && w[..k + |o.units|] == w[..k] + o.units
  {
    hide Convert, Whole, Fair;
    var o := c.step(c.src[i..]);
    var w, k, room := Whole(c).written, t - c.start, c.end - t;
    var i', t', bad' := i + o.consumed, t + |o.units|, bad || o.bad;
    Unfold(c.step, c.src[i..], room, bad);
    DropDrop(c.src, i, o.consumed);
    assert c.end - t' == room - |o.units|;
    var rest := Convert(c.step, c.src[i'..], c.end - t', bad');
    assert w[k..] == o.units + rest.written;
    SplitTail(w, k, o.units, rest.written);
    assert t' - c.start == k + |o.units|;
    assert Ahead(c, i', t', bad');
  }

  /** After the units of an emitting step have been stored. */
  lemma GoingOn<S(!new), T>(c: Call<S, T>, target: seq<T>, i: nat, t: nat, bad: bool, target': seq<T>)
    requires Going(c, target, i, t, bad) && i < |c.src|
    requires var o := c.step(c.src[i..]);
             && o.Emit? && o.need <= c.end - t && t + |o.units| <= |target|
             && target' == target[..t] + o.units + target[t + |o.units|..]
    ensures var o := c.step(c.src[i..]);
            Going(c, target', i + o.consumed, t + |o.units|, bad || o.bad)
  {
    hide Ahead, Legal, Whole, Holds, Convert, Fair;
    AheadOn(c, i, t, bad);
    AheadBounds(c, i, t, bad);
    var units, written := c.step(c.src[i..]).units, Whole(c).written[..t - c.start];
    HoldsFits(target, c.before, c.start, written);
    HoldsMore(target, target', c.before, c.start, written, units);
  }

  lemma AheadBounds<S(!new), T>(c: Call<S, T>, i: nat, t: nat, bad: bool)
    requires Ahead(c, i, t, bad)
    ensures Legal(c) && i <= |c.src| && c.start <= t <= c.end && t - c.start <= |Whole(c).written|
  {
  }

  lemma SplitTail<T>(w: seq<T>, k: nat, u: seq<T>, r: seq<T>)
    requires k <= |w| && w[k..] == u + r
    ensures k + |u| <= |w| && w[k + |u|..] == r && w[..k + |u|] == w[..k] + u
  {
    assert w == w[..k] + (u + r);
  }

  lemma HoldsFits<T>(target: seq<T>, before: seq<T>, start: nat, written: seq<T>)
    requires Holds(target, before, start, written)
    ensures |target| == |before| && start + |written| <= |before|
  {
  }

  lemma HoldsMore<T>(target: seq<T>, target': seq<T>, before: seq<T>, start: nat, written: seq<T>, units: seq<T>)
    requires Holds(target, before, start, written) && start + |written| + |units| <= |before|
    requires var t := start + |written|; target' == target[..t] + units + target[t + |units|..]
    ensures Holds(target', before, start, written + units)
  {
  }
}
