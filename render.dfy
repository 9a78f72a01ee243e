/** Rendering a template into a target object: the one place where the
    serializer's output is written into mutable state. */
module Rendering {
  import opened Templates

  datatype Option<T> = None | Some(value: T)

  /** An object a template can be rendered into. `innerHTML` is optional on an
      arbitrary object; `hasRender` records whether makeRenderable has installed
      a `render` method on it. */
  class RenderTarget {
    var innerHTML: Option<string>
    var hasRender: bool

    /** A plain object literal, e.g. `{ innerHTML: '' }`: nothing installed yet. */
    constructor (html: Option<string>)
      ensures innerHTML == html && !hasRender
    {
      innerHTML := html;
      hasRender := false;
    }

    /** The method makeRenderable installs: `render(this, template)`. */
    method Render(t: Template)
      requires hasRender
      modifies this`innerHTML
      ensures innerHTML == Some(Serialize(t))
    {
      RenderInto(this, t);
    }
  }

  /** renderToString: the template's toHTML output. */
  method RenderToString(t: Template) returns (html: string)
    ensures html == Serialize(t)
  {
    html := ToHtml(t);
  }

  /** render: overwrites the target's innerHTML with the serialization and
      writes nothing else. */
  method RenderInto(target: RenderTarget, t: Template)
    modifies target`innerHTML
    ensures target.innerHTML == Some(Serialize(t))
  {
    var html := RenderToString(t);
    target.innerHTML := Some(html);
  }

  /** makeRenderable: installs `render` on the object and returns that same object. */
  method MakeRenderable(target: RenderTarget) returns (r: RenderTarget)
    modifies target`hasRender
    ensures r == target && target.hasRender
  {
    target.hasRender := true;
    r := target;
  }

  /** createMockBody: a fresh renderable object whose innerHTML is empty. */
  method CreateMockBody() returns (body: RenderTarget)
    ensures fresh(body)
    ensures body.innerHTML == Some("") && body.hasRender
  {
    var target := new RenderTarget(Some(""));
    body := MakeRenderable(target);
  }

  /** Successive renders overwrite one another: only the last one is left. */
  method RenderTwice(body: RenderTarget, first: Template, second: Template)
    requires body.hasRender
    modifies body
    ensures body.innerHTML == Some(Serialize(second))
    ensures body.hasRender
  {
    body.Render(first);
    body.Render(second);
  }

  /** Rendering into one target leaves every other target as it was, and the
      target's own render method in place. */
  method RenderLeavesOthers(target: RenderTarget, other: RenderTarget, t: Template)
    requires target != other
    modifies target`innerHTML
    ensures target.innerHTML == Some(Serialize(t))
    ensures target.hasRender == old(target.hasRender)
    ensures other.innerHTML == old(other.innerHTML) && other.hasRender == old(other.hasRender)
  {
    RenderInto(target, t);
  }
}
