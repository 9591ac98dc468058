/**
 * The few pieces of the game engine that the object pool touches, reduced to
 * what the pool's bookkeeping depends on: object identity, a runtime type tag,
 * cloning, destruction, the active flag, parenting under the pool's root and
 * the pose a clone is given.
 */
module Engine {

  /** The runtime type of a component, as compared by `GetType() == typeof(T)`. */
  type TypeTag = nat

  datatype Vector3 = Vector3(x: real, y: real, z: real)
  datatype Quaternion = Quaternion(x: real, y: real, z: real, w: real)

  /** Position and rotation of an instance; the pool only stores them. */
  datatype Pose = Pose(position: Vector3, rotation: Quaternion)

  const Zero := Vector3(0.0, 0.0, 0.0)
  const Identity := Quaternion(0.0, 0.0, 0.0, 1.0)
  const Origin := Pose(Zero, Identity)

  /** A component: prefabs and their clones alike. Identity is reference identity. */
  class Component {
    const tag: TypeTag

    constructor (tag: TypeTag)
      ensures this.tag == tag
    {
      this.tag := tag;
    }
  }

  /**
   * The per-instance state the pool reads and writes through the engine:
   * which components have been destroyed, which are switched off
   * (`SetActive(false)`), which hang under the pool's root transform, and
   * the pose each clone was given.
   */
  class Scene {
    var destroyed: set<Component>
    var inactive: set<Component>
    var underPool: set<Component>
    var pose: map<Component, Pose>

    constructor ()
      ensures destroyed == {} && inactive == {} && underPool == {} && pose == map[]
    {
      destroyed, inactive, underPool, pose := {}, {}, {}, map[];
    }

    /**
     * `Object.Instantiate(original, position, rotation)`: a new component of
     * the same runtime type, at the root of the scene, at the given pose; it
     * copies the original's active flag.
     */
    method Instantiate(original: Component, at: Pose) returns (clone: Component)
      modifies this
      ensures fresh(clone) && clone.tag == original.tag
      ensures inactive == if original in old(inactive) then old(inactive) + {clone} else old(inactive)
      ensures destroyed == old(destroyed) && underPool == old(underPool)
      ensures pose == old(pose)[clone := at]
    {
      clone := new Component(original.tag);
      if original in inactive {
        inactive := inactive + {clone};
      }
      pose := pose[clone := at];
    }

    /** `Object.Destroy(c.gameObject)`: after this, `c == null` holds in the engine's sense. */
    method Destroy(c: Component)
      modifies this
      ensures destroyed == old(destroyed) + {c}
      ensures inactive == old(inactive) && underPool == old(underPool) && pose == old(pose)
    {
      destroyed := destroyed + {c};
    }

    /** `c.gameObject.SetActive(value)`. */
    method SetActive(c: Component, value: bool)
      modifies this
      ensures inactive == if value then old(inactive) - {c} else old(inactive) + {c}
      ensures destroyed == old(destroyed) && underPool == old(underPool) && pose == old(pose)
    {
      inactive := if value then inactive - {c} else inactive + {c};
    }

    /** `c.transform.parent = poolRoot` (toPool) or `c.transform.parent = null` (not toPool). */
    method SetPoolParent(c: Component, toPool: bool)
      modifies this
      ensures underPool == if toPool then old(underPool) + {c} else old(underPool) - {c}
      ensures destroyed == old(destroyed) && inactive == old(inactive) && pose == old(pose)
    {
      underPool := if toPool then underPool + {c} else underPool - {c};
    }

    /** `c.transform.localPosition = ...; c.transform.localRotation = ...` on an unparented instance. */
    method SetPose(c: Component, at: Pose)
      modifies this
      ensures pose == old(pose)[c := at]
      ensures destroyed == old(destroyed) && inactive == old(inactive) && underPool == old(underPool)
    {
      pose := pose[c := at];
    }
  }
}
