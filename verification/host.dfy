/** The parts of the image editor that the plugins call: layers, the image's
    layer stack, and the progress / undo / message calls, which are recorded
    in the order the host receives them. */
module Host {
  import opened Pixels
  import opened Raster
  import opened Stack

  datatype Option<T> = None | Some(value: T)

  /** The exceptions the plugins' `try` blocks catch. */
  datatype Fault =
    | IndexOutOfRange  // a pixel with fewer than three channels is indexed at 1 or 2
    | NotInImage       // remove_layer of a layer that is not in the image
    | HostRejected     // a host call that the host refuses

  /** Host calls whose order the plugins promise something about. Progress is
      kept as a numerator and denominator instead of their float quotient. */
  datatype Event =
    | ProgressInit(title: string)
    | UndoGroupStart
    | ProgressUpdate(done: nat, total: nat)
    | Message(fault: Fault)
    | UndoGroupEnd
    | ProgressEnd

  /** The title every plugin passes to progress_init. */
  function ProgressLabel(name: string): (r: string)
    ensures |r| == |name| + 16 && r[13..|r| - 3] == name
    ensures r[..13] == "Discolouring " && r[|r| - 3..] == "..."
  {
    "Discolouring " + name + "..."
  }

  /** The progress updates of an uninterrupted run of `total` steps: 0/total,
      1/total, ..., (total-1)/total. */
  function Ticks(total: nat): (r: seq<Event>)
    ensures |r| == total
    ensures forall k :: 0 <= k < total ==> r[k] == ProgressUpdate(k, total)
  {
    seq(total, (k: nat) => ProgressUpdate(k, total))
  }

  /** One more progress step extends a run of steps by its update. */
  lemma TicksGrow(total: nat, a: nat, b: nat)
    requires a <= b < total
    ensures Ticks(total)[a..b + 1] == Ticks(total)[a..b] + [ProgressUpdate(b, total)]
  {
  }

  /** Consecutive runs of progress steps join up. */
  lemma TicksJoin(total: nat, a: nat, b: nat)
    requires a <= b <= total
    ensures Ticks(total)[..a] + Ticks(total)[a..b] == Ticks(total)[..b]
  {
  }

  /** The events of one plugin run: progress started and undo group opened,
      the first `k` progress steps (all of them when nothing was raised), the
      message of the caught exception if there was one, then the undo group
      closed and progress ended. */
  ghost predicate OperationLog(e: seq<Event>, title: string, total: nat, fault: Option<Fault>) {
    var tail := if fault.Some? then [Message(fault.value), UndoGroupEnd, ProgressEnd]
                else [UndoGroupEnd, ProgressEnd];
    |e| >= 2 + |tail| &&
    var k := |e| - 2 - |tail|;
    k <= total && (fault.None? ==> k == total) &&
    e == [ProgressInit(title), UndoGroupStart] + Ticks(total)[..k] + tail
  }

  /** `after` is `before` followed by the events of one plugin run. */
  ghost predicate Extends(before: seq<Event>, after: seq<Event>, title: string, total: nat, fault: Option<Fault>) {
    |before| <= |after| && after[..|before|] == before &&
    OperationLog(after[|before|..], title, total, fault)
  }

  /** The events a plugin appends when it made `k` progress steps and then
      either finished or caught `fault`. */
  function RunEvents(title: string, total: nat, k: nat, fault: Option<Fault>): seq<Event>
    requires k <= total
  {
    [ProgressInit(title), UndoGroupStart] + Ticks(total)[..k] +
    (if fault.Some? then [Message(fault.value)] else []) + [UndoGroupEnd, ProgressEnd]
  }

  lemma RunEventsExtend(before: seq<Event>, title: string, total: nat, k: nat, fault: Option<Fault>)
    requires k <= total && (fault.None? ==> k == total)
    ensures Extends(before, before + RunEvents(title, total, k, fault), title, total, fault)
  {
    var e := RunEvents(title, total, k, fault);
    assert (before + e)[..|before|] == before;
    assert (before + e)[|before|..] == e;
  }

  /** The guarantees a plugin run that reaches its `try` block gives its
      host: the run starts by starting progress and opening the undo group
      and ends by closing the undo group and ending progress, whether the
      `try` block succeeds or raises an exception the plugin catches;
      progress numerators strictly increase and stay below the total; and
      one message is shown exactly when an exception was caught. */
  lemma LogIsBracketed(e: seq<Event>, title: string, total: nat, fault: Option<Fault>)
    requires OperationLog(e, title, total, fault)
    ensures |e| >= 4 && e[0] == ProgressInit(title) && e[1] == UndoGroupStart
    ensures e[|e| - 2] == UndoGroupEnd && e[|e| - 1] == ProgressEnd
    ensures forall a, b :: 0 <= a < b < |e| && e[a].ProgressUpdate? && e[b].ProgressUpdate? ==>
      e[a].done < e[b].done < total == e[b].total
    ensures forall a :: 0 <= a < |e| && e[a].ProgressUpdate? ==> e[a].done < e[a].total == total
    ensures forall a :: 0 <= a < |e| ==> (e[a].Message? <==> fault.Some? && a == |e| - 3)
    ensures fault.Some? ==> e[|e| - 3] == Message(fault.value)
  {
    var m := if fault.Some? then 1 else 0;
    var k := |e| - 4 - m;
    var ticks := Ticks(total)[..k];
    assert forall a :: 2 <= a < 2 + k ==> e[a] == ticks[a - 2] == ProgressUpdate(a - 2, total);
    assert forall a :: 2 + k <= a < |e| ==> !e[a].ProgressUpdate?;
    assert !e[0].ProgressUpdate? && !e[1].ProgressUpdate?;
  }

  /** A layer of the image. Its geometry and attributes are fixed once it is
      created; the plugins change only its name and its pixels. */
  class Layer {
    const width: nat
    const height: nat
    const bpp: nat       // bytes per pixel: 3 for RGB, 4 for RGBA
    const kind: nat      // the host's layer type tag
    const opacity: real
    const mode: nat      // the host's blend mode tag
    var name: string
    var pixels: Grid

    /** The host never makes an empty layer, and every pixel has `bpp` bytes. */
    ghost predicate Valid()
      reads this
    {
      width >= 1 && height >= 1 && bpp >= 1 && Shaped(pixels, width, height, bpp)
    }

    /** `gimp.Layer(...)` followed by `gimp_edit_clear`: a layer of the given
        geometry whose every byte is 0. */
    constructor (name: string, width: nat, height: nat, kind: nat, bpp: nat, opacity: real, mode: nat)
      requires width >= 1 && height >= 1 && bpp >= 1
      ensures Valid()
      ensures this.name == name && this.width == width && this.height == height
      ensures this.kind == kind && this.bpp == bpp && this.opacity == opacity && this.mode == mode
      ensures pixels == Blank(width, height, bpp)
    {
      this.name := name;
      this.width, this.height := width, height;
      this.kind, this.bpp := kind, bpp;
      this.opacity, this.mode := opacity, mode;
      this.pixels := Blank(width, height, bpp);
    }

    /** `set_pixel(x, y, p)`: only pixel (x, y) changes. */
    method SetPixel(x: nat, y: nat, p: Pixel)
      requires Valid() && x < width && y < height && |p| == bpp && IsBytes(p)
      modifies this`pixels
      ensures Valid()
      ensures pixels == old(pixels)[x := old(pixels)[x][y := p]]
    {
      pixels := pixels[x := pixels[x][y := p]];
    }
  }

  /** An image: its layer stack (index 0 is the top) and the host calls the
      running plugin has made so far. */
  class Image {
    var layers: seq<Layer>
    var log: seq<Event>

    /** A layer occurs at most once in the stack. */
    ghost predicate Valid()
      reads this
    {
      Distinct(layers)
    }

    /** An image holding the stack `ls`, before any plugin has run. */
    constructor (ls: seq<Layer>)
      requires Distinct(ls)
      ensures Valid() && layers == ls && log == []
    {
      layers := ls;
      log := [];
    }

    /** A progress, undo or message call of the host. */
    method Emit(e: Event)
      modifies this`log
      ensures log == old(log) + [e]
    {
      log := log + [e];
    }

    /** `add_layer(l, pos)`. */
    method AddLayer(l: Layer, pos: nat)
      requires Valid() && l !in layers && pos <= |layers|
      modifies this`layers
      ensures Valid() && layers == InsertAt(old(layers), pos, l)
    {
      layers := InsertAt(layers, pos, l);
    }

    /** `remove_layer(l)`: raises when `l` is not in the image; otherwise
        the entry `k` holding `l` goes. */
    method RemoveLayer(l: Layer) returns (found: bool, ghost k: nat)
      requires Valid()
      modifies this`layers
      ensures Valid() && found == (l in old(layers))
      ensures !found ==> layers == old(layers)
      ensures found ==> k < |old(layers)| && old(layers)[k] == l && layers == RemoveAt(old(layers), k)
    {
      found := l in layers;
      k := 0;
      if found {
        var j :| 0 <= j < |layers| && layers[j] == l;
        layers := RemoveAt(layers, j);
        k := j;
      }
    }
  }

  /** The names of the layers of a stack, top first. The host refuses two
      layers of the same name. */
  ghost function NamesOf(ls: seq<Layer>): (r: seq<string>)
    reads set l | l in ls
    ensures |r| == |ls|
  {
    seq(|ls|, i reads set l | l in ls requires 0 <= i < |ls| => ls[i].name)
  }

  /** The closing of every plugin: the message of the caught exception, if
      any, then the undo group closed and progress ended. */
  method Finish(img: Image, fault: Option<Fault>)
    modifies img`log
    ensures img.log == old(img.log) + (if fault.Some? then [Message(fault.value)] else []) + [UndoGroupEnd, ProgressEnd]
  {
    if fault.Some? {
      img.Emit(Message(fault.value));
    }
    img.Emit(UndoGroupEnd);
    img.Emit(ProgressEnd);
  }

  /** The position lookup of the replacing plugins: the index of the last
      stack entry that is `layer`, or 0 when there is none. */
  method LayerPosition(img: Image, layer: Layer) returns (pos: nat)
    ensures layer in img.layers ==>
      pos < |img.layers| && img.layers[pos] == layer &&
      forall k :: pos < k < |img.layers| ==> img.layers[k] != layer
    ensures layer !in img.layers ==> pos == 0
  {
    pos := 0;
    var i := 0;
    while i < |img.layers|
      invariant 0 <= i <= |img.layers|
      invariant layer in img.layers[..i] ==>
        pos < i && img.layers[pos] == layer && forall k :: pos < k < i ==> img.layers[k] != layer
      invariant layer !in img.layers[..i] ==> pos == 0
    {
      if img.layers[i] == layer {
        pos := i;
      }
      assert img.layers[..i + 1] == img.layers[..i] + [img.layers[i]];
      i := i + 1;
    }
    assert img.layers[..i] == img.layers;
  }
}
